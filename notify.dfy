/** The per-chat selection of `notify_changes` (bot.py): which subscribed
    departments and courses a set of changes concerns, and which course
    messages are prepared for the chat. The message texts themselves are
    not modelled; a message is identified by what it is about. */
module Notify {
  import opened Wrappers
  import opened Catalog
  import opened Lists
  import opened Differ

  /** `all_changes`: department id -> its change record. */
  type AllChanges = map<DeptId, DeptChanges>

  /** A course subscription `(dept, course)`. */
  type Pair = (DeptId, CourseId)

  /** The three headings of a course message. */
  datatype Kind = CourseAdded | CourseDeleted | CourseModified

  /** How a course appears in `all_changes`, looked up in added, deleted, modified
      in that order; nothing when it does not appear. */
  function KindOf(changes: AllChanges, d: DeptId, c: CourseId): (r: Option<Kind>)
    ensures r.None? <==> d !in changes || (c !in changes[d].added.GetOr([]) && c !in changes[d].deleted.GetOr([])
                                           && c !in changes[d].modified.GetOr(map[]))
    ensures r == Some(CourseAdded) ==> d in changes && c in changes[d].added.GetOr([])
    ensures r == Some(CourseDeleted) ==> d in changes && c in changes[d].deleted.GetOr([])
    ensures r == Some(CourseModified) ==> d in changes && c in changes[d].modified.GetOr(map[])
  {
    if d !in changes then None
    else if c in changes[d].added.GetOr([]) then Some(CourseAdded)
    else if c in changes[d].deleted.GetOr([]) then Some(CourseDeleted)
    else if c in changes[d].modified.GetOr(map[]) then Some(CourseModified)
    else None
  }

  /** `dept_matches`: the subscribed departments that have changes, in
      subscription order. */
  function DeptMatches(changes: AllChanges, subscribed: seq<DeptId>): (r: seq<DeptId>)
    ensures forall x :: x in r <==> x in subscribed && x in changes
    ensures InOrder(r, subscribed)
    ensures NoDups(subscribed) ==> NoDups(r)
    ensures |r| <= |subscribed|
  {
    if subscribed == [] then []
    else
      var t := subscribed[1..];
      var rest := DeptMatches(changes, t);
      assert subscribed == [subscribed[0]] + t;
      if subscribed[0] in changes then
        FilterKeepsHead(subscribed[0], t, rest);
        [subscribed[0]] + rest
      else
        FilterDropsHead(subscribed[0], t, rest);
        rest
  }

  /** Matching a concatenation matches each part: the kept departments stay
      in subscription order. */
  lemma {:induction false} DeptMatchesAppend(changes: AllChanges, a: seq<DeptId>, b: seq<DeptId>)
    ensures DeptMatches(changes, a + b) == DeptMatches(changes, a) + DeptMatches(changes, b)
  {
    if a == [] {
      assert a + b == b;
    } else {
      assert (a + b)[0] == a[0];
      assert (a + b)[1..] == a[1..] + b;
      DeptMatchesAppend(changes, a[1..], b);
    }
  }

  /** `curso_matches`: the subscribed pairs whose course is added, deleted
      or modified in its department, in subscription order. */
  function CursoMatches(changes: AllChanges, subscribed: seq<Pair>): (r: seq<Pair>)
    ensures forall x :: x in r <==> x in subscribed && KindOf(changes, x.0, x.1).Some?
    ensures InOrder(r, subscribed)
    ensures |r| <= |subscribed|
  {
    if subscribed == [] then []
    else
      var rest := CursoMatches(changes, subscribed[1..]);
      assert forall x :: x in subscribed[1..] ==> x in subscribed;
      assert subscribed == [subscribed[0]] + subscribed[1..];
      var x := subscribed[0];
      if KindOf(changes, x.0, x.1).Some? then
        InOrderCons(x, subscribed[1..], rest);
        [x] + rest
      else
        InOrderSkip(x, subscribed[1..], rest);
        rest
  }

  /** Matching a concatenation matches each part: the kept pairs stay in
      subscription order. */
  lemma {:induction false} CursoMatchesAppend(changes: AllChanges, a: seq<Pair>, b: seq<Pair>)
    ensures CursoMatches(changes, a + b) == CursoMatches(changes, a) + CursoMatches(changes, b)
  {
    if a == [] {
      assert a + b == b;
    } else {
      assert (a + b)[0] == a[0];
      assert (a + b)[1..] == a[1..] + b;
      CursoMatchesAppend(changes, a[1..], b);
    }
  }

  /** The course messages the loop over `curso_matches` prepares, as written:
      the message is appended only in the "modified" branch, so a match on an
      added or deleted course yields no message. */
  function CourseMessagesAsWritten(changes: AllChanges, matches: seq<Pair>): (r: seq<(Pair, Kind)>)
    ensures |r| <= |matches|
    ensures forall i :: 0 <= i < |r| ==> r[i].1 == CourseModified && r[i].0 in matches
                                         && KindOf(changes, r[i].0.0, r[i].0.1) == Some(CourseModified)
    ensures forall j :: 0 <= j < |matches| && KindOf(changes, matches[j].0, matches[j].1) == Some(CourseModified)
                        ==> (matches[j], CourseModified) in r
  {
    if matches == [] then []
    else
      var x := matches[0];
      var rest := CourseMessagesAsWritten(changes, matches[1..]);
      var h := AsWrittenMessage(changes, x);
      AsWrittenCons(changes, matches, h, rest);
      h + rest
  }

  lemma AsWrittenCons(changes: AllChanges, matches: seq<Pair>, h: seq<(Pair, Kind)>, rest: seq<(Pair, Kind)>)
    requires |matches| > 0
    requires h == if KindOf(changes, matches[0].0, matches[0].1) == Some(CourseModified)
                  then [(matches[0], CourseModified)] else []
    requires |rest| <= |matches| - 1
    requires forall i :: 0 <= i < |rest| ==> rest[i].1 == CourseModified && rest[i].0 in matches[1..]
                                             && KindOf(changes, rest[i].0.0, rest[i].0.1) == Some(CourseModified)
    requires forall j :: 0 <= j < |matches| - 1 && KindOf(changes, matches[1..][j].0, matches[1..][j].1) == Some(CourseModified)
                         ==> (matches[1..][j], CourseModified) in rest
    ensures |h + rest| <= |matches|
    ensures forall i :: 0 <= i < |h + rest| ==> (h + rest)[i].1 == CourseModified && (h + rest)[i].0 in matches
                                                && KindOf(changes, (h + rest)[i].0.0, (h + rest)[i].0.1) == Some(CourseModified)
    ensures forall j :: 0 <= j < |matches| && KindOf(changes, matches[j].0, matches[j].1) == Some(CourseModified)
                        ==> (matches[j], CourseModified) in h + rest
  {
    forall i | 0 <= i < |h + rest|
      ensures (h + rest)[i].1 == CourseModified && (h + rest)[i].0 in matches
              && KindOf(changes, (h + rest)[i].0.0, (h + rest)[i].0.1) == Some(CourseModified)
    {
      if i >= |h| {
        assert (h + rest)[i] == rest[i - |h|];
        assert rest[i - |h|].0 in matches[1..];
      }
    }
    forall j | 0 <= j < |matches| && KindOf(changes, matches[j].0, matches[j].1) == Some(CourseModified)
      ensures (matches[j], CourseModified) in h + rest
    {
      if j > 0 {
        assert matches[1..][j - 1] == matches[j];
      }
    }
  }

  /** The messages prepared for two runs of matches are those of the first
      followed by those of the second: the loop keeps the order of the matches. */
  lemma {:induction false} AsWrittenAppend(changes: AllChanges, a: seq<Pair>, b: seq<Pair>)
    ensures CourseMessagesAsWritten(changes, a + b)
            == CourseMessagesAsWritten(changes, a) + CourseMessagesAsWritten(changes, b)
  {
    if a == [] {
      assert a + b == b;
    } else {
      var ab := a + b;
      assert ab[0] == a[0];
      assert ab[1..] == a[1..] + b;
      AsWrittenHead(changes, a);
      AsWrittenHead(changes, ab);
      AsWrittenAppend(changes, a[1..], b);
      SeqAssoc(AsWrittenMessage(changes, a[0]), CourseMessagesAsWritten(changes, a[1..]),
               CourseMessagesAsWritten(changes, b));
    }
  }

  /** The message the loop appends for one match, as written. */
  function AsWrittenMessage(changes: AllChanges, x: Pair): seq<(Pair, Kind)> {
    if KindOf(changes, x.0, x.1) == Some(CourseModified) then [(x, CourseModified)] else []
  }

  lemma AsWrittenHead(changes: AllChanges, xs: seq<Pair>)
    requires |xs| > 0
    ensures CourseMessagesAsWritten(changes, xs)
            == AsWrittenMessage(changes, xs[0]) + CourseMessagesAsWritten(changes, xs[1..])
  {
  }

  lemma SeqAssoc<T>(a: seq<T>, b: seq<T>, c: seq<T>)
    ensures a + (b + c) == (a + b) + c
  {
  }

  /** The loop over `curso_matches` as written. */
  method BuildCourseMessagesAsWritten(changes: AllChanges, cursoMatches: seq<Pair>)
    returns (cursosMessages: seq<(Pair, Kind)>)
    ensures cursosMessages == CourseMessagesAsWritten(changes, cursoMatches)
  {
    cursosMessages := [];
    for i := 0 to |cursoMatches|
      invariant cursosMessages == CourseMessagesAsWritten(changes, cursoMatches[..i])
    {
      var dc := cursoMatches[i];
      var d, c := dc.0, dc.1;
      AsWrittenSnoc(changes, cursoMatches, i);
      if d in changes && c in changes[d].added.GetOr([]) {
      } else if d in changes && c in changes[d].deleted.GetOr([]) {
      } else if d in changes && c in changes[d].modified.GetOr(map[]) {
        cursosMessages := cursosMessages + [(dc, CourseModified)];
      }
    }
    assert cursoMatches[..|cursoMatches|] == cursoMatches;
  }

  lemma AsWrittenSnoc(changes: AllChanges, xs: seq<Pair>, i: nat)
    requires i < |xs|
    ensures CourseMessagesAsWritten(changes, xs[..i + 1])
            == CourseMessagesAsWritten(changes, xs[..i])
               + (if KindOf(changes, xs[i].0, xs[i].1) == Some(CourseModified) then [(xs[i], CourseModified)] else [])
  {
    assert xs[..i + 1] == xs[..i] + [xs[i]];
    AsWrittenAppend(changes, xs[..i], [xs[i]]);
    assert [xs[i]][1..] == [];
  }

  /** A chat subscribed only to course 5-CC3001, when that course was just
      added: the course is matched, so a notification thread is started, but
      it is given no message at all. */
  lemma AddedCourseGetsNoMessage()
    ensures var changes := map["5" := DeptChanges(Some(["CC3001"]), None, None)];
            var matches := CursoMatches(changes, [("5", "CC3001")]);
            matches == [("5", "CC3001")]
            && DeptMatches(changes, []) == []
            && CourseMessagesAsWritten(changes, matches) == []
  {
    var changes := map["5" := DeptChanges(Some(["CC3001"]), None, None)];
    assert KindOf(changes, "5", "CC3001") == Some(CourseAdded);
  }

  /** The course messages as evidently intended: one per match, in order,
      under the heading of how the course changed. */
  function CourseMessages(changes: AllChanges, matches: seq<Pair>): (r: seq<(Pair, Kind)>)
    requires forall x :: x in matches ==> KindOf(changes, x.0, x.1).Some?
    ensures |r| == |matches|
    ensures forall i :: 0 <= i < |r| ==> r[i] == (matches[i], KindOf(changes, matches[i].0, matches[i].1).value)
  {
    if matches == [] then []
    else
      var x := matches[0];
      assert forall y :: y in matches[1..] ==> y in matches;
      [(x, KindOf(changes, x.0, x.1).value)] + CourseMessages(changes, matches[1..])
  }

  /** What one enabled chat is sent: the department messages and the course
      messages, or nothing when neither list of matches is non-empty. */
  datatype Notification = Notification(deptMessages: seq<DeptId>, courseMessages: seq<(Pair, Kind)>)

  /** The body of the loop over chats, with the corrected course messages. */
  function ChatNotification(changes: AllChanges, enable: bool, deptos: seq<DeptId>, cursos: seq<Pair>)
    : (r: Option<Notification>)
    ensures r.Some? <==> enable && ((exists d :: d in deptos && d in changes)
                                    || (exists x :: x in cursos && KindOf(changes, x.0, x.1).Some?))
    ensures r.Some? ==> |r.value.deptMessages| + |r.value.courseMessages| > 0
    ensures r.Some? ==> r.value.deptMessages == DeptMatches(changes, deptos)
                        && r.value.courseMessages == CourseMessages(changes, CursoMatches(changes, cursos))
  {
    var deptMatches := DeptMatches(changes, deptos);
    var cursoMatches := CursoMatches(changes, cursos);
    if enable && (|deptMatches| > 0 || |cursoMatches| > 0) then
      assert |deptMatches| > 0 ==> deptMatches[0] in deptMatches;
      assert |cursoMatches| > 0 ==> cursoMatches[0] in cursoMatches;
      Some(Notification(deptMatches, CourseMessages(changes, cursoMatches)))
    else
      SeqEmpty(deptMatches);
      SeqEmpty(cursoMatches);
      None
  }

  /** A course of a department the check diffed is matched under the heading
      that says how it changed: added when only the new dict has it, deleted
      when only the old one does, modified when both have it and it differs;
      an unchanged course is not matched. */
  lemma KindOfDiff(changes: AllChanges, d: DeptId, o: Department, n: Department, c: CourseId)
    requires o.WellFormed() && n.WellFormed()
    requires d in changes && DeptDiff(o, n) == Some(changes[d])
    ensures KindOf(changes, d, c) == Some(CourseAdded) <==> c in n.courses && c !in o.courses
    ensures KindOf(changes, d, c) == Some(CourseDeleted) <==> c in o.courses && c !in n.courses
    ensures KindOf(changes, d, c) == Some(CourseModified) <==>
              c in o.courses && c in n.courses && o.courses[c] != n.courses[c]
  {
    var ch := changes[d];
    assert c in ch.added.GetOr([]) <==> c in AddedCourses(o, n);
    assert c in ch.deleted.GetOr([]) <==> c in DeletedCourses(o, n);
    assert c in ch.modified.GetOr(map[]) <==> c in ModifiedCourses(o.courses, n.courses);
  }
}
