/** The chat commands of commands.py that change or read a chat's settings:
    `/start`, `/stop`, `/suscribir_depto`, `/suscribir_curso`,
    `/desuscribir_depto`, `/desuscribir_curso` and `/suscripciones`.
    Each argument is classified and the chat's subscription lists are
    updated in place; the reply texts are not modelled, only the lists of
    arguments each reply reports. */
module Commands {
  import opened Wrappers
  import opened PyStr
  import opened Catalog
  import opened Lists

  /** A course subscription `(dept, course)`. */
  type Pair = (DeptId, CourseId)

  /** The `KeyError` a command can raise, with the missing key. */
  datatype CommandError = KeyError(key: string)

  /** `(d_arg, c_arg) = arg.split("-")`: exactly two pieces, or `ValueError`. */
  function SplitPair(arg: string): (r: Option<Pair>)
    ensures r.Some? <==> |Split(arg, "-")| == 2
    ensures r.Some? ==> Join([r.value.0, r.value.1], "-") == arg
  {
    var parts := Split(arg, "-");
    JoinSplit(arg, "-");
    if |parts| == 2 then
      assert parts == [parts[0], parts[1]];
      Some((parts[0], parts[1]))
    else None
  }

  /** `r` is `xs` with the first occurrence of `x` cut out, the other
      elements kept in their order. */
  ghost predicate FirstRemoved<T>(r: seq<T>, xs: seq<T>, x: T) {
    exists i :: 0 <= i < |xs| && xs[i] == x && x !in xs[..i] && r == xs[..i] + xs[i + 1..]
  }

  /** Python `xs.remove(x)` when `x` is in `xs`: drops its first occurrence. */
  function RemoveFirst<T(==)>(xs: seq<T>, x: T): (r: seq<T>)
    requires x in xs
    ensures multiset(r) == multiset(xs) - multiset{x}
    ensures NoDups(xs) ==> NoDups(r) && x !in r
  {
    if xs[0] == x then
      assert xs == [xs[0]] + xs[1..];
      NoDupsTail(xs);
      xs[1..]
    else
      var rest := RemoveFirst(xs[1..], x);
      assert xs == [xs[0]] + xs[1..];
      NoDupsTail(xs);
      assert forall y :: y in rest ==> y in multiset(rest);
      assert NoDups(xs) ==> xs[0] !in rest;
      NoDupsCons(xs[0], rest);
      [xs[0]] + rest
  }

  /** `remove` adds nothing to a list. */
  lemma RemoveFirstWithin<T>(xs: seq<T>, x: T)
    requires x in xs
    ensures forall y :: y in RemoveFirst(xs, x) ==> y in xs
  {
    var r := RemoveFirst(xs, x);
    forall y | y in r ensures y in xs {
      assert y in multiset(r);
    }
  }

  /** `remove` cuts out the first occurrence and keeps the other elements
      in their order. */
  lemma {:induction false} RemoveFirstOrder<T>(xs: seq<T>, x: T)
    requires x in xs
    ensures FirstRemoved(RemoveFirst(xs, x), xs, x)
  {
    if xs[0] == x {
      assert xs[..0] == [] && xs[1..] == xs[..0] + xs[0 + 1..];
    } else {
      assert x in xs[1..];
      RemoveFirstOrder(xs[1..], x);
      RemoveFirstCons(xs, x, RemoveFirst(xs[1..], x));
    }
  }

  /** The first occurrence of `x` past the head, removed, is the first
      occurrence of `x` in the whole list, removed. */
  lemma RemoveFirstCons<T>(xs: seq<T>, x: T, rest: seq<T>)
    requires |xs| > 0 && xs[0] != x && FirstRemoved(rest, xs[1..], x)
    ensures FirstRemoved([xs[0]] + rest, xs, x)
  {
    var i :| 0 <= i < |xs| - 1 && xs[1..][i] == x && x !in xs[1..][..i]
             && rest == xs[1..][..i] + xs[1..][i + 1..];
    assert xs[..i + 1] == [xs[0]] + xs[1..][..i];
    assert xs[i + 1 + 1..] == xs[1..][i + 1..];
    assert xs[i + 1] == x;
    assert xs[..i + 1] + xs[i + 1 + 1..] == [xs[0]] + rest;
  }

  /** A list without duplicates holds each value at most once. */
  lemma {:induction false} NoDupsCount<T>(xs: seq<T>, x: T)
    requires NoDups(xs)
    ensures multiset(xs)[x] <= 1
  {
    if xs != [] {
      NoDupsTail(xs);
      NoDupsCount(xs[1..], x);
      assert xs == [xs[0]] + xs[1..];
      assert multiset(xs) == multiset{xs[0]} + multiset(xs[1..]);
      if xs[0] == x {
        assert multiset(xs[1..])[x] == 0;
      }
    }
  }

  // ---------------------------------------------------------------------
  // /suscribir_depto

  /** The three lists `/suscribir_depto` reports. */
  datatype DeptoTally = DeptoTally(added: seq<DeptId>, already: seq<DeptId>, failed: seq<string>)

  /** `subscribed_deptos` (absent until first needed) and the tally so far. */
  datatype DeptoState = DeptoState(list: Option<seq<DeptId>>, tally: DeptoTally)

  /** One argument of `/suscribir_depto`. */
  function SubscribeDeptoStep(depts: set<DeptId>, st: DeptoState, arg: string): (r: DeptoState)
    ensures forall x :: x in st.list.GetOr([]) ==> x in r.list.GetOr([])
    ensures arg in depts ==> arg in r.list.GetOr([])
    ensures arg !in depts ==> r.list == st.list
  {
    if arg in depts then
      var list := st.list.GetOr([]);
      if arg !in list then
        DeptoState(Some(list + [arg]), st.tally.(added := st.tally.added + [arg]))
      else
        DeptoState(Some(list), st.tally.(already := st.tally.already + [arg]))
    else
      st.(tally := st.tally.(failed := st.tally.failed + [arg]))
  }

  function SubscribeDeptoFrom(depts: set<DeptId>, st: DeptoState, args: seq<string>): DeptoState
    decreases |args|
  {
    if args == [] then st
    else SubscribeDeptoFrom(depts, SubscribeDeptoStep(depts, st, args[0]), args[1..])
  }

  /** What `/suscribir_depto args` leaves: the list and the reported tally. */
  function SubscribeDeptoSpec(depts: set<DeptId>, list: Option<seq<DeptId>>, args: seq<string>): DeptoState {
    SubscribeDeptoFrom(depts, DeptoState(list, DeptoTally([], [], [])), args)
  }

  /** What holds of a `/suscribir_depto` state that started from list `l0`:
      the list is `l0` followed by the added departments, it has no
      duplicates, and every department reported added or already subscribed
      is in `DEPTS` while every failed argument is not. */
  ghost predicate DeptoInv(depts: set<DeptId>, l0: seq<DeptId>, st: DeptoState) {
    st.list.GetOr([]) == l0 + st.tally.added
    && NoDups(st.list.GetOr([]))
    && (forall x :: x in st.tally.added ==> x in depts)
    && (forall x :: x in st.tally.already ==> x in depts && x in st.list.GetOr([]))
    && (forall x :: x in st.tally.failed ==> x !in depts)
  }

  /** The tally counts the arguments. */
  function DeptoCounted(t: DeptoTally): multiset<string> {
    multiset(t.added) + multiset(t.already) + multiset(t.failed)
  }

  lemma SubscribeDeptoStepKeeps(depts: set<DeptId>, l0: seq<DeptId>, st: DeptoState, arg: string)
    requires DeptoInv(depts, l0, st)
    ensures DeptoInv(depts, l0, SubscribeDeptoStep(depts, st, arg))
    ensures DeptoCounted(SubscribeDeptoStep(depts, st, arg).tally) == DeptoCounted(st.tally) + multiset{arg}
    ensures arg in depts ==> arg in SubscribeDeptoStep(depts, st, arg).list.GetOr([])
    ensures forall x :: x in st.list.GetOr([]) ==> x in SubscribeDeptoStep(depts, st, arg).list.GetOr([])
  {
    var list := st.list.GetOr([]);
    if arg in depts && arg !in list {
      NoDupsSnoc(list, arg);
      assert l0 + (st.tally.added + [arg]) == (l0 + st.tally.added) + [arg];
    }
  }

  /** `/suscribir_depto` keeps its invariant over all its arguments, reports
      each argument exactly once, and leaves every `DEPTS` argument subscribed. */
  lemma {:induction false} SubscribeDeptoFromKeeps(depts: set<DeptId>, l0: seq<DeptId>, st: DeptoState, args: seq<string>)
    requires DeptoInv(depts, l0, st)
    ensures var r := SubscribeDeptoFrom(depts, st, args);
            DeptoInv(depts, l0, r)
            && DeptoCounted(r.tally) == DeptoCounted(st.tally) + multiset(args)
            && (forall a :: a in args && a in depts ==> a in r.list.GetOr([]))
            && (forall x :: x in st.list.GetOr([]) ==> x in r.list.GetOr([]))
    decreases |args|
  {
    if args != [] {
      var next := SubscribeDeptoStep(depts, st, args[0]);
      SubscribeDeptoStepKeeps(depts, l0, st, args[0]);
      SubscribeDeptoFromKeeps(depts, l0, next, args[1..]);
      assert args == [args[0]] + args[1..];
      assert multiset(args) == multiset{args[0]} + multiset(args[1..]);
    }
  }

  /** `/suscribir_depto`: each argument is reported exactly once, as added,
      already subscribed or failed; only `DEPTS` ids are added, each at most
      once and only if not already subscribed; the list becomes the old list
      followed by the added ids and afterwards holds every `DEPTS` argument. */
  lemma SubscribeDeptoCorrect(depts: set<DeptId>, list: Option<seq<DeptId>>, args: seq<string>)
    requires NoDups(list.GetOr([]))
    ensures var r := SubscribeDeptoSpec(depts, list, args);
            DeptoCounted(r.tally) == multiset(args)
            && r.list.GetOr([]) == list.GetOr([]) + r.tally.added
            && NoDups(r.list.GetOr([]))
            && (forall x :: x in r.tally.added ==> x in depts && x !in list.GetOr([]))
            && (forall x :: x in r.tally.failed ==> x !in depts)
            && (forall a :: a in args && a in depts ==> a in r.list.GetOr([]))
  {
    var l0 := list.GetOr([]);
    var st := DeptoState(list, DeptoTally([], [], []));
    assert l0 + [] == l0;
    SubscribeDeptoFromKeeps(depts, l0, st, args);
    var r := SubscribeDeptoSpec(depts, list, args);
    NoDupsDisjoint(l0, r.tally.added);
  }

  /** A `DEPTS` id given twice in one `/suscribir_depto` is reported as
      already subscribed (the second time). */
  lemma RepeatedDeptoIsAlready(depts: set<DeptId>, list: Option<seq<DeptId>>, args: seq<string>, i: nat, j: nat)
    requires NoDups(list.GetOr([]))
    requires i < j < |args| && args[i] == args[j] && args[i] in depts
    ensures args[i] in SubscribeDeptoSpec(depts, list, args).tally.already
  {
    var a := args[i];
    var r := SubscribeDeptoSpec(depts, list, args);
    SubscribeDeptoCorrect(depts, list, args);
    TwiceCounted(args, i, j);
    NoDupsAppendRight(list.GetOr([]), r.tally.added);
    NoDupsCount(r.tally.added, a);
    assert multiset(r.tally.failed)[a] == 0;
  }

  /** A value at two positions is counted at least twice. */
  lemma TwiceCounted<T>(xs: seq<T>, i: nat, j: nat)
    requires i < j < |xs| && xs[i] == xs[j]
    ensures multiset(xs)[xs[i]] >= 2
  {
    var a := xs[i];
    assert xs == xs[..j] + xs[j..];
    assert xs[..j][i] == a && a in xs[..j];
    assert xs[j..][0] == a && a in xs[j..];
    assert multiset(xs) == multiset(xs[..j]) + multiset(xs[j..]);
  }

  /** The pieces of `d + "-" + c` are `d` and `c` when neither holds a dash. */
  lemma SplitPairOf(d: string, c: string)
    requires '-' !in d && '-' !in c
    ensures SplitPair(d + "-" + c) == Some((d, c))
  {
    var s := d + "-" + c;
    assert s[|d|..|d| + 1] == "-";
    assert OccursAt(s, "-", |d|);
    forall j: nat | j < |d| ensures !OccursAt(s, "-", j) {
      assert s[j..j + 1] == [d[j]];
    }
    assert Find(s, "-") == Some(|d|);
    assert s[|d| + 1..] == c;
    forall j: nat ensures !OccursAt(c, "-", j) {
      if j + 1 <= |c| {
        assert c[j..j + 1] == [c[j]];
      }
    }
    assert Split(c, "-") == [c];
    assert s[..|d|] == d;
    assert Split(s, "-") == [d, c];
  }

  // ---------------------------------------------------------------------
  // /suscribir_curso

  /** The five lists `/suscribir_curso` reports. */
  datatype CursoTally = CursoTally(added: seq<Pair>, already: seq<Pair>, unknown: seq<Pair>,
                                   failedDepto: seq<Pair>, failed: seq<string>)
  {
    function Size(): nat {
      |added| + |already| + |unknown| + |failedDepto| + |failed|
    }
  }

  /** `subscribed_cursos`, the tally so far, and the `KeyError` that ended
      the command early, if any. */
  datatype CursoState = CursoState(list: Option<seq<Pair>>, tally: CursoTally, error: Option<CommandError>)

  const NoCursoTally := CursoTally([], [], [], [], [])

  /** No ASCII lower-case letter, as `upper()` leaves a course id. */
  predicate Uppercased(s: string) {
    forall i :: 0 <= i < |s| ==> !('a' <= s[i] <= 'z')
  }

  /** One argument of `/suscribir_curso`: split on the dash, course
      uppercased, the pair appended when new and then looked up among the
      courses `current_data` holds for the department (a department missing
      there raises `KeyError` after the append). */
  function SubscribeCursoStep(depts: set<DeptId>, current: Snapshot, st: CursoState, arg: string): (r: CursoState)
    ensures st.error.Some? ==> r == st
    ensures forall x :: x in st.list.GetOr([]) ==> x in r.list.GetOr([])
    ensures st.error.None? && r.error.Some? ==> r.error.value.key in depts && r.error.value.key !in current
  {
    if st.error.Some? then st
    else
      match SplitPair(arg)
      case None => st.(tally := st.tally.(failed := st.tally.failed + [arg]))
      case Some(p) =>
        var x := (p.0, Upper(p.1));
        if x.0 in depts then
          var list := st.list.GetOr([]);
          if x !in list then
            if x.0 !in current then
              st.(list := Some(list + [x]), error := Some(KeyError(x.0)))
            else if x.1 in current[x.0].courses then
              st.(list := Some(list + [x]), tally := st.tally.(added := st.tally.added + [x]))
            else
              st.(list := Some(list + [x]), tally := st.tally.(unknown := st.tally.unknown + [x]))
          else
            st.(list := Some(list), tally := st.tally.(already := st.tally.already + [x]))
        else
          st.(tally := st.tally.(failedDepto := st.tally.failedDepto + [x]))
  }

  function SubscribeCursoFrom(depts: set<DeptId>, current: Snapshot, st: CursoState, args: seq<string>): CursoState
    decreases |args|
  {
    if args == [] then st
    else SubscribeCursoFrom(depts, current, SubscribeCursoStep(depts, current, st, args[0]), args[1..])
  }

  /** What `/suscribir_curso args` leaves. */
  function SubscribeCursoSpec(depts: set<DeptId>, current: Snapshot, list: Option<seq<Pair>>, args: seq<string>): CursoState {
    SubscribeCursoFrom(depts, current, CursoState(list, NoCursoTally, None), args)
  }

  /** The pair an argument names, with the course uppercased as subscribing does. */
  function SubscribedPair(arg: string): Option<Pair> {
    match SplitPair(arg)
    case None => None
    case Some(p) => Some((p.0, Upper(p.1)))
  }

  /** Some argument names pair `x`, read with the course uppercased when
      `upper` holds (subscribing always reads it so). */
  ghost predicate NamedBy(x: Pair, args: seq<string>, upper: bool) {
    exists a :: a in args && UnsubscribedPair(a, upper) == Some(x)
  }

  /** A pair named by some arguments stays named when more follow, and the
      pair the next argument names is named. */
  lemma NamedByGrows(done: seq<string>, arg: string, upper: bool)
    ensures forall x :: NamedBy(x, done, upper) ==> NamedBy(x, done + [arg], upper)
    ensures UnsubscribedPair(arg, upper).Some? ==> NamedBy(UnsubscribedPair(arg, upper).value, done + [arg], upper)
  {
    forall x | NamedBy(x, done, upper) ensures NamedBy(x, done + [arg], upper) {
      var a :| a in done && UnsubscribedPair(a, upper) == Some(x);
      assert a in done + [arg];
    }
    if UnsubscribedPair(arg, upper).Some? {
      assert arg in done + [arg];
    }
  }

  /** The pairs appended to the list: the added and unknown ones, and the
      pair whose lookup raised `KeyError`, if any (it is the last one). */
  function Appended(st: CursoState): multiset<Pair> {
    var list := st.list.GetOr([]);
    multiset(st.tally.added) + multiset(st.tally.unknown)
    + (if st.error.Some? && |list| > 0 then multiset{list[|list| - 1]} else multiset{})
  }

  /** What holds of a `/suscribir_curso` state that started from list `l0`. */
  ghost predicate CursoInv(depts: set<DeptId>, current: Snapshot, l0: seq<Pair>, st: CursoState) {
    var list := st.list.GetOr([]);
    l0 <= list && NoDups(list)
    && multiset(list) == multiset(l0) + Appended(st)
    && (forall i :: |l0| <= i < |list| ==> Uppercased(list[i].1))
    && (forall x :: x in st.tally.added ==> x.0 in depts && x.0 in current && x.1 in current[x.0].courses)
    && (forall x :: x in st.tally.unknown ==> x.0 in depts && x.0 in current && x.1 !in current[x.0].courses)
    && (forall x :: x in st.tally.already ==> x.0 in depts && x in list && Uppercased(x.1))
    && (forall x :: x in st.tally.failedDepto ==> x.0 !in depts)
    && (forall a :: a in st.tally.failed ==> SplitPair(a).None?)
    && (st.error.Some? ==> |list| > |l0| && var key := list[|list| - 1].0;
          st.error == Some(KeyError(key)) && key in depts && key !in current)
  }

  lemma SubscribeCursoStepKeeps(depts: set<DeptId>, current: Snapshot, l0: seq<Pair>, st: CursoState, arg: string)
    requires CursoInv(depts, current, l0, st)
    ensures var r := SubscribeCursoStep(depts, current, st, arg);
            CursoInv(depts, current, l0, r)
            && st.list.GetOr([]) <= r.list.GetOr([])
            && (st.error.Some? ==> r == st)
            && (r.error.None? ==> r.tally.Size() == st.tally.Size() + 1)
            && (r.error.None? && SubscribedPair(arg).Some? && SubscribedPair(arg).value.0 in depts
                ==> SubscribedPair(arg).value in r.list.GetOr([]))
  {
    var r := SubscribeCursoStep(depts, current, st, arg);
    if st.error.None? && SplitPair(arg).Some? {
      var x := SubscribedPair(arg).value;
      var list := st.list.GetOr([]);
      assert Uppercased(x.1);
      if x.0 in depts && x !in list {
        SubscribeCursoAppendKeeps(depts, current, l0, st, x);
        var l1 := list + [x];
        if x.0 !in current {
          assert r == st.(list := Some(l1), error := Some(KeyError(x.0)));
        } else if x.1 in current[x.0].courses {
          assert r == st.(list := Some(l1), tally := st.tally.(added := st.tally.added + [x]));
        } else {
          assert r == st.(list := Some(l1), tally := st.tally.(unknown := st.tally.unknown + [x]));
        }
      } else if x.0 in depts {
        assert r == st.(list := Some(list), tally := st.tally.(already := st.tally.already + [x]));
        AlreadyKeeps(depts, current, l0, st, x);
      } else {
        assert r == st.(tally := st.tally.(failedDepto := st.tally.failedDepto + [x]));
        FailedDeptoKeeps(depts, current, l0, st, x);
      }
    } else if st.error.None? {
      assert r == st.(tally := st.tally.(failed := st.tally.failed + [arg]));
      FailedKeeps(depts, current, l0, st, arg);
    }
  }

  /** A pair already in the list is reported as such and keeps the invariant. */
  lemma AlreadyKeeps(depts: set<DeptId>, current: Snapshot, l0: seq<Pair>, st: CursoState, x: Pair)
    requires CursoInv(depts, current, l0, st) && st.error.None?
    requires x.0 in depts && x in st.list.GetOr([]) && Uppercased(x.1)
    ensures CursoInv(depts, current, l0, st.(list := Some(st.list.GetOr([])),
                                            tally := st.tally.(already := st.tally.already + [x])))
  {
    var r := st.(list := Some(st.list.GetOr([])), tally := st.tally.(already := st.tally.already + [x]));
    assert Appended(r) == Appended(st);
  }

  /** A pair of a department outside `DEPTS` is reported and keeps the invariant. */
  lemma FailedDeptoKeeps(depts: set<DeptId>, current: Snapshot, l0: seq<Pair>, st: CursoState, x: Pair)
    requires CursoInv(depts, current, l0, st) && st.error.None? && x.0 !in depts
    ensures CursoInv(depts, current, l0, st.(tally := st.tally.(failedDepto := st.tally.failedDepto + [x])))
  {
    var r := st.(tally := st.tally.(failedDepto := st.tally.failedDepto + [x]));
    assert Appended(r) == Appended(st);
  }

  /** An argument that is not one `depto-curso` pair is reported and keeps
      the invariant. */
  lemma FailedKeeps(depts: set<DeptId>, current: Snapshot, l0: seq<Pair>, st: CursoState, arg: string)
    requires CursoInv(depts, current, l0, st) && st.error.None? && SplitPair(arg).None?
    ensures CursoInv(depts, current, l0, st.(tally := st.tally.(failed := st.tally.failed + [arg])))
  {
    var r := st.(tally := st.tally.(failed := st.tally.failed + [arg]));
    assert Appended(r) == Appended(st);
  }

  /** The step that appends a new pair keeps the invariant, whichever way
      the lookup goes. */
  lemma {:induction false} SubscribeCursoAppendKeeps(depts: set<DeptId>, current: Snapshot, l0: seq<Pair>, st: CursoState, x: Pair)
    requires CursoInv(depts, current, l0, st) && st.error.None?
    requires x.0 in depts && x !in st.list.GetOr([]) && Uppercased(x.1)
    ensures var list := st.list.GetOr([]) + [x];
            var r := if x.0 !in current then st.(list := Some(list), error := Some(KeyError(x.0)))
                     else if x.1 in current[x.0].courses then
                       st.(list := Some(list), tally := st.tally.(added := st.tally.added + [x]))
                     else st.(list := Some(list), tally := st.tally.(unknown := st.tally.unknown + [x]));
            CursoInv(depts, current, l0, r) && st.list.GetOr([]) <= list && x in list
  {
    var list := st.list.GetOr([]);
    AppendedListKeeps(l0, list, x);
    if x.0 !in current {
      AppendRaisedKeeps(depts, current, l0, st, x);
    } else if x.1 in current[x.0].courses {
      AppendAddedKeeps(depts, current, l0, st, x);
    } else {
      AppendUnknownKeeps(depts, current, l0, st, x);
    }
  }

  /** Appending a pair whose department the catalogue lacks raises `KeyError`
      and keeps the invariant. */
  lemma AppendRaisedKeeps(depts: set<DeptId>, current: Snapshot, l0: seq<Pair>, st: CursoState, x: Pair)
    requires CursoInv(depts, current, l0, st) && st.error.None?
    requires x.0 in depts && x.0 !in current
    requires var list := st.list.GetOr([]); var l1 := list + [x];
             l0 <= l1 && NoDups(l1) && l1[|l1| - 1] == x
             && multiset(l1) == multiset(list) + multiset{x}
             && (forall i :: |l0| <= i < |l1| ==> Uppercased(l1[i].1))
    ensures CursoInv(depts, current, l0, st.(list := Some(st.list.GetOr([]) + [x]), error := Some(KeyError(x.0))))
  {
    var r := st.(list := Some(st.list.GetOr([]) + [x]), error := Some(KeyError(x.0)));
    assert Appended(r) == Appended(st) + multiset{x};
  }

  /** Appending a pair the catalogue knows reports it added and keeps the
      invariant. */
  lemma AppendAddedKeeps(depts: set<DeptId>, current: Snapshot, l0: seq<Pair>, st: CursoState, x: Pair)
    requires CursoInv(depts, current, l0, st) && st.error.None?
    requires x.0 in depts && x.0 in current && x.1 in current[x.0].courses
    requires var list := st.list.GetOr([]); var l1 := list + [x];
             l0 <= l1 && NoDups(l1)
             && multiset(l1) == multiset(list) + multiset{x}
             && (forall i :: |l0| <= i < |l1| ==> Uppercased(l1[i].1))
    ensures CursoInv(depts, current, l0, st.(list := Some(st.list.GetOr([]) + [x]),
                                            tally := st.tally.(added := st.tally.added + [x])))
  {
    var list := st.list.GetOr([]);
    var l1 := list + [x];
    var r := st.(list := Some(l1), tally := st.tally.(added := st.tally.added + [x]));
    assert multiset(r.tally.added) == multiset(st.tally.added) + multiset{x};
    assert Appended(r) == Appended(st) + multiset{x};
    assert multiset(l1) == multiset(l0) + Appended(r);
    assert forall y :: y in r.tally.added ==> y == x || y in st.tally.added;
    assert forall y :: y in r.tally.already ==> y in list;
  }

  /** Appending a pair the catalogue does not know reports it unknown and
      keeps the invariant. */
  lemma AppendUnknownKeeps(depts: set<DeptId>, current: Snapshot, l0: seq<Pair>, st: CursoState, x: Pair)
    requires CursoInv(depts, current, l0, st) && st.error.None?
    requires x.0 in depts && x.0 in current && x.1 !in current[x.0].courses
    requires var list := st.list.GetOr([]); var l1 := list + [x];
             l0 <= l1 && NoDups(l1)
             && multiset(l1) == multiset(list) + multiset{x}
             && (forall i :: |l0| <= i < |l1| ==> Uppercased(l1[i].1))
    ensures CursoInv(depts, current, l0, st.(list := Some(st.list.GetOr([]) + [x]),
                                            tally := st.tally.(unknown := st.tally.unknown + [x])))
  {
    var list := st.list.GetOr([]);
    var l1 := list + [x];
    var r := st.(list := Some(l1), tally := st.tally.(unknown := st.tally.unknown + [x]));
    assert multiset(r.tally.unknown) == multiset(st.tally.unknown) + multiset{x};
    assert Appended(r) == Appended(st) + multiset{x};
    assert multiset(l1) == multiset(l0) + Appended(r);
    assert forall y :: y in r.tally.unknown ==> y == x || y in st.tally.unknown;
    assert forall y :: y in r.tally.already ==> y in list;
  }

  /** Appending a new uppercased pair keeps the list facts of the invariant. */
  lemma AppendedListKeeps(l0: seq<Pair>, list: seq<Pair>, x: Pair)
    requires l0 <= list && NoDups(list) && x !in list && Uppercased(x.1)
    requires forall i :: |l0| <= i < |list| ==> Uppercased(list[i].1)
    ensures var l1 := list + [x];
            l0 <= l1 && list <= l1 && NoDups(l1) && x in l1 && l1[|l1| - 1] == x
            && multiset(l1) == multiset(list) + multiset{x}
            && (forall i :: |l0| <= i < |l1| ==> Uppercased(l1[i].1))
  {
    var l1 := list + [x];
    NoDupsSnoc(list, x);
    forall i | |l0| <= i < |l1| ensures Uppercased(l1[i].1) {
      if i < |list| { assert l1[i] == list[i]; }
    }
  }

  /** `/suscribir_curso` over all its arguments. */
  lemma {:induction false} SubscribeCursoFromKeeps(depts: set<DeptId>, current: Snapshot, l0: seq<Pair>,
                                                   st: CursoState, args: seq<string>)
    requires CursoInv(depts, current, l0, st)
    ensures var r := SubscribeCursoFrom(depts, current, st, args);
            CursoInv(depts, current, l0, r)
            && st.list.GetOr([]) <= r.list.GetOr([])
            && (r.error.None? ==> st.error.None? && r.tally.Size() == st.tally.Size() + |args|)
            && (r.error.None? ==> forall a :: a in args && SubscribedPair(a).Some? && SubscribedPair(a).value.0 in depts
                                             ==> SubscribedPair(a).value in r.list.GetOr([]))
    decreases |args|
  {
    if args != [] {
      var next := SubscribeCursoStep(depts, current, st, args[0]);
      SubscribeCursoStepKeeps(depts, current, l0, st, args[0]);
      SubscribeCursoFromKeeps(depts, current, l0, next, args[1..]);
      var r := SubscribeCursoFrom(depts, current, st, args);
      if r.error.None? {
        ErrorSticks(depts, current, next, args[1..]);
        forall a | a in args && SubscribedPair(a).Some? && SubscribedPair(a).value.0 in depts
          ensures SubscribedPair(a).value in r.list.GetOr([])
        {
          if a == args[0] {
            PrefixMember(next.list.GetOr([]), r.list.GetOr([]), SubscribedPair(a).value);
          } else {
            assert a in args[1..];
          }
        }
      }
    }
  }

  /** Once a `KeyError` is raised, the rest of the arguments are not read. */
  lemma {:induction false} ErrorSticks(depts: set<DeptId>, current: Snapshot, st: CursoState, args: seq<string>)
    ensures st.error.Some? ==> SubscribeCursoFrom(depts, current, st, args) == st
    decreases |args|
  {
    if args != [] {
      ErrorSticks(depts, current, SubscribeCursoStep(depts, current, st, args[0]), args[1..]);
    }
  }

  /** `/suscribir_curso`: unless a `KeyError` ends it, there is one report
      per argument; the list keeps its old entries in front, gains exactly
      the added and unknown pairs (each one a pair some argument names),
      stays free of duplicates and holds every pair given for a `DEPTS`
      department, with the course uppercased.
      Added pairs name a course `current_data` has, unknown ones a course it
      lacks. A `KeyError` names a `DEPTS` department that `current_data`
      lacks, raised after that pair was appended to the list. */
  lemma SubscribeCursoCorrect(depts: set<DeptId>, current: Snapshot, list: Option<seq<Pair>>, args: seq<string>)
    requires NoDups(list.GetOr([]))
    ensures var r := SubscribeCursoSpec(depts, current, list, args);
            var l1 := r.list.GetOr([]);
            list.GetOr([]) <= l1 && NoDups(l1)
            && (forall x :: x in r.tally.added ==> x.0 in current && x.1 in current[x.0].courses)
            && (forall x :: x in r.tally.unknown ==> x.0 in current && x.1 !in current[x.0].courses)
            && (forall i :: |list.GetOr([])| <= i < |l1| ==> Uppercased(l1[i].1))
            && (r.error.None? ==>
                  r.tally.Size() == |args|
                  && multiset(l1) == multiset(list.GetOr([])) + multiset(r.tally.added) + multiset(r.tally.unknown)
                  && (forall a :: a in args && SubscribedPair(a).Some? && SubscribedPair(a).value.0 in depts
                                 ==> SubscribedPair(a).value in l1))
            && (r.error.Some? ==>
                  |l1| > |list.GetOr([])| && r.error.value.key == l1[|l1| - 1].0
                  && r.error.value.key in depts && r.error.value.key !in current)
            && (forall x :: x in l1 && x !in list.GetOr([]) ==>
                  exists a :: a in args && SubscribedPair(a) == Some(x))
  {
    var l0 := list.GetOr([]);
    var st := CursoState(list, NoCursoTally, None);
    CursoInvInit(depts, current, list);
    SubscribeCursoFromKeeps(depts, current, l0, st, args);
    CursoInvMeans(depts, current, l0, SubscribeCursoSpec(depts, current, list, args));
    SubscribeCursoNamed(depts, current, list, args);
  }

  lemma CursoInvInit(depts: set<DeptId>, current: Snapshot, list: Option<seq<Pair>>)
    requires NoDups(list.GetOr([]))
    ensures CursoInv(depts, current, list.GetOr([]), CursoState(list, NoCursoTally, None))
  {
    var st := CursoState(list, NoCursoTally, None);
    assert Appended(st) == multiset{};
  }

  /** What the invariant says of the list once the command is done. */
  lemma CursoInvMeans(depts: set<DeptId>, current: Snapshot, l0: seq<Pair>, r: CursoState)
    requires CursoInv(depts, current, l0, r)
    ensures var l1 := r.list.GetOr([]);
            r.error.None? ==>
              multiset(l1) == multiset(l0) + multiset(r.tally.added) + multiset(r.tally.unknown)
    ensures var l1 := r.list.GetOr([]);
            r.error.Some? ==>
              |l1| > |l0| && r.error.value.key == l1[|l1| - 1].0
              && r.error.value.key in depts && r.error.value.key !in current
  {
    if r.error.None? {
      assert Appended(r) == multiset(r.tally.added) + multiset(r.tally.unknown);
    }
  }

  /** Everything a `/suscribir_curso` state added to the list or reported
      comes from the arguments `done` read so far. */
  ghost predicate CursoNamed(l0: seq<Pair>, st: CursoState, done: seq<string>) {
    (forall x :: x in st.list.GetOr([]) && x !in l0 ==> NamedBy(x, done, true))
    && (forall x :: x in st.tally.added ==> NamedBy(x, done, true))
    && (forall x :: x in st.tally.already ==> NamedBy(x, done, true))
    && (forall x :: x in st.tally.unknown ==> NamedBy(x, done, true))
    && (forall x :: x in st.tally.failedDepto ==> NamedBy(x, done, true))
    && (forall a :: a in st.tally.failed ==> a in done)
  }

  lemma SubscribeCursoStepNamed(depts: set<DeptId>, current: Snapshot, l0: seq<Pair>, st: CursoState,
                                done: seq<string>, arg: string)
    requires CursoNamed(l0, st, done)
    ensures CursoNamed(l0, SubscribeCursoStep(depts, current, st, arg), done + [arg])
  {
    var r := SubscribeCursoStep(depts, current, st, arg);
    var d1 := done + [arg];
    NamedByGrows(done, arg, true);
    assert forall a :: a in done ==> a in d1;
    if st.error.None? && SplitPair(arg).Some? {
      var x := SubscribedPair(arg).value;
      assert UnsubscribedPair(arg, true) == Some(x);
      assert NamedBy(x, d1, true);
      var list := st.list.GetOr([]);
      if x.0 in depts && x !in list {
        assert forall y :: y in list + [x] ==> y in list || y == x;
        if x.0 !in current {
          assert r == st.(list := Some(list + [x]), error := Some(KeyError(x.0)));
        } else if x.1 in current[x.0].courses {
          assert r == st.(list := Some(list + [x]), tally := st.tally.(added := st.tally.added + [x]));
        } else {
          assert r == st.(list := Some(list + [x]), tally := st.tally.(unknown := st.tally.unknown + [x]));
        }
      } else if x.0 in depts {
        assert r == st.(list := Some(list), tally := st.tally.(already := st.tally.already + [x]));
      } else {
        assert r == st.(tally := st.tally.(failedDepto := st.tally.failedDepto + [x]));
      }
    } else if st.error.None? {
      assert r == st.(tally := st.tally.(failed := st.tally.failed + [arg]));
    }
  }

  lemma {:induction false} SubscribeCursoFromNamed(depts: set<DeptId>, current: Snapshot, l0: seq<Pair>,
                                                   st: CursoState, done: seq<string>, args: seq<string>)
    requires CursoNamed(l0, st, done)
    ensures CursoNamed(l0, SubscribeCursoFrom(depts, current, st, args), done + args)
    decreases |args|
  {
    if args != [] {
      SubscribeCursoStepNamed(depts, current, l0, st, done, args[0]);
      SubscribeCursoFromNamed(depts, current, l0, SubscribeCursoStep(depts, current, st, args[0]),
                              done + [args[0]], args[1..]);
      assert done + [args[0]] + args[1..] == done + args;
    }
  }

  /** `/suscribir_curso` appends and reports only pairs its arguments name,
      and reports as unparseable only its own arguments. */
  lemma SubscribeCursoNamed(depts: set<DeptId>, current: Snapshot, list: Option<seq<Pair>>, args: seq<string>)
    ensures var r := SubscribeCursoSpec(depts, current, list, args);
            (forall x :: x in r.list.GetOr([]) && x !in list.GetOr([]) ==>
               exists a :: a in args && SubscribedPair(a) == Some(x))
            && (forall x :: x in r.tally.added || x in r.tally.already || x in r.tally.unknown
                            || x in r.tally.failedDepto ==>
                  exists a :: a in args && SubscribedPair(a) == Some(x))
            && (forall a :: a in r.tally.failed ==> a in args)
  {
    var st := CursoState(list, NoCursoTally, None);
    assert CursoNamed(list.GetOr([]), st, []);
    SubscribeCursoFromNamed(depts, current, list.GetOr([]), st, [], args);
    assert [] + args == args;
    forall a ensures UnsubscribedPair(a, true) == SubscribedPair(a) {
    }
  }

  // ---------------------------------------------------------------------
  // /desuscribir_depto

  /** The three lists `/desuscribir_depto` reports. */
  datatype UnsubDeptoTally = UnsubDeptoTally(deleted: seq<DeptId>, notSubscribed: seq<DeptId>, failed: seq<string>)
  {
    function Counted(): multiset<string> {
      multiset(deleted) + multiset(notSubscribed) + multiset(failed)
    }
  }

  /** `subscribed_deptos`, the tally so far and the `KeyError` that ended
      the command early, if any. */
  datatype UnsubDeptoState = UnsubDeptoState(list: Option<seq<DeptId>>, tally: UnsubDeptoTally,
                                             error: Option<CommandError>)

  /** The key `/desuscribir_depto` reads without a default. */
  const DeptosKey := "subscribed_deptos"

  /** One argument of `/desuscribir_depto`: a `DEPTS` id is removed when
      subscribed; reading the list of a chat that never subscribed raises
      `KeyError`. */
  function UnsubscribeDeptoStep(depts: set<DeptId>, st: UnsubDeptoState, arg: string): (r: UnsubDeptoState)
    ensures forall x :: x in r.list.GetOr([]) ==> x in st.list.GetOr([])
    ensures r.error.Some? <==> st.error.Some? || (arg in depts && st.list.None?)
  {
    if st.error.Some? then st
    else if arg in depts then
      match st.list
      case None => st.(error := Some(KeyError(DeptosKey)))
      case Some(list) =>
        if arg in list then
          RemoveFirstWithin(list, arg);
          st.(list := Some(RemoveFirst(list, arg)), tally := st.tally.(deleted := st.tally.deleted + [arg]))
        else
          st.(tally := st.tally.(notSubscribed := st.tally.notSubscribed + [arg]))
    else
      st.(tally := st.tally.(failed := st.tally.failed + [arg]))
  }

  function UnsubscribeDeptoFrom(depts: set<DeptId>, st: UnsubDeptoState, args: seq<string>): UnsubDeptoState
    decreases |args|
  {
    if args == [] then st
    else UnsubscribeDeptoFrom(depts, UnsubscribeDeptoStep(depts, st, args[0]), args[1..])
  }

  /** What `/desuscribir_depto args` leaves. */
  function UnsubscribeDeptoSpec(depts: set<DeptId>, list: Option<seq<DeptId>>, args: seq<string>): UnsubDeptoState {
    UnsubscribeDeptoFrom(depts, UnsubDeptoState(list, UnsubDeptoTally([], [], []), None), args)
  }

  /** What holds of a `/desuscribir_depto` state that started from `l0`. */
  ghost predicate UnsubDeptoInv(depts: set<DeptId>, l0: Option<seq<DeptId>>, st: UnsubDeptoState) {
    var list := st.list.GetOr([]);
    st.list.None? == l0.None?
    && NoDups(list)
    && multiset(list) + multiset(st.tally.deleted) == multiset(l0.GetOr([]))
    && (forall x :: x in st.tally.deleted ==> x in depts)
    && (forall x :: x in st.tally.notSubscribed ==> x in depts && x !in list)
    && (forall x :: x in st.tally.failed ==> x !in depts)
    && (st.error.Some? ==> st.error == Some(KeyError(DeptosKey)) && l0.None?)
  }

  lemma {:induction false} UnsubscribeDeptoStepKeeps(depts: set<DeptId>, l0: Option<seq<DeptId>>, st: UnsubDeptoState, arg: string)
    requires UnsubDeptoInv(depts, l0, st)
    ensures var r := UnsubscribeDeptoStep(depts, st, arg);
            UnsubDeptoInv(depts, l0, r)
            && (forall x :: x in r.list.GetOr([]) ==> x in st.list.GetOr([]))
            && (st.error.Some? ==> r == st)
            && (r.error.None? ==> r.tally.Counted() == st.tally.Counted() + multiset{arg})
            && (r.error.None? && arg in depts ==> arg !in r.list.GetOr([]))
            && (st.error.None? && arg in depts && l0.None? ==> r.error.Some?)
  {
    if st.error.None? && arg in depts && st.list.Some? && arg in st.list.value {
      UnsubDeptoRemoveKeeps(depts, l0, st, arg);
    } else if st.error.None? && arg in depts && st.list.Some? {
      var r := st.(tally := st.tally.(notSubscribed := st.tally.notSubscribed + [arg]));
      assert UnsubscribeDeptoStep(depts, st, arg) == r;
      assert r.tally.Counted() == st.tally.Counted() + multiset{arg};
    } else if st.error.None? && arg in depts {
      assert UnsubscribeDeptoStep(depts, st, arg) == st.(error := Some(KeyError(DeptosKey)));
    } else if st.error.None? {
      var r := st.(tally := st.tally.(failed := st.tally.failed + [arg]));
      assert UnsubscribeDeptoStep(depts, st, arg) == r;
      assert r.tally.Counted() == st.tally.Counted() + multiset{arg};
    }
  }

  /** The step that removes a subscribed department keeps the invariant. */
  lemma UnsubDeptoRemoveKeeps(depts: set<DeptId>, l0: Option<seq<DeptId>>, st: UnsubDeptoState, arg: string)
    requires UnsubDeptoInv(depts, l0, st) && st.error.None? && arg in depts
    requires st.list.Some? && arg in st.list.value
    ensures var r := UnsubscribeDeptoStep(depts, st, arg);
            r == st.(list := Some(RemoveFirst(st.list.value, arg)),
                     tally := st.tally.(deleted := st.tally.deleted + [arg]))
            && UnsubDeptoInv(depts, l0, r)
            && (forall x :: x in r.list.GetOr([]) ==> x in st.list.GetOr([]))
            && r.tally.Counted() == st.tally.Counted() + multiset{arg}
            && arg !in r.list.GetOr([])
  {
    var list := st.list.value;
    RemoveKeeps(list, st.tally.deleted, arg, multiset(l0.GetOr([])));
  }

  /** Removing a subscribed value moves it from the list to the deleted ones. */
  lemma RemoveKeeps<T>(list: seq<T>, deleted: seq<T>, x: T, m: multiset<T>)
    requires NoDups(list) && x in list && multiset(list) + multiset(deleted) == m
    ensures var rest := RemoveFirst(list, x);
            NoDups(rest) && x !in rest && multiset(rest) + multiset(deleted + [x]) == m
            && (forall y :: y in rest ==> y in list)
  {
    var rest := RemoveFirst(list, x);
    assert forall y :: y in rest ==> y in multiset(rest);
    assert multiset(rest) == multiset(list) - multiset{x};
    assert multiset(deleted + [x]) == multiset(deleted) + multiset{x};
    assert multiset{x} <= multiset(list);
  }

  lemma {:induction false} UnsubscribeDeptoFromKeeps(depts: set<DeptId>, l0: Option<seq<DeptId>>,
                                                     st: UnsubDeptoState, args: seq<string>)
    requires UnsubDeptoInv(depts, l0, st)
    ensures var r := UnsubscribeDeptoFrom(depts, st, args);
            UnsubDeptoInv(depts, l0, r)
            && (forall x :: x in r.list.GetOr([]) ==> x in st.list.GetOr([]))
            && (r.error.None? ==> st.error.None? && r.tally.Counted() == st.tally.Counted() + multiset(args))
            && (r.error.None? ==> forall a :: a in args && a in depts ==> a !in r.list.GetOr([]))
            && (st.error.None? && l0.None? && (exists a :: a in args && a in depts) ==> r.error.Some?)
    decreases |args|
  {
    if args != [] {
      var next := UnsubscribeDeptoStep(depts, st, args[0]);
      UnsubscribeDeptoStepKeeps(depts, l0, st, args[0]);
      UnsubscribeDeptoFromKeeps(depts, l0, next, args[1..]);
      UnsubErrorSticks(depts, next, args[1..]);
      assert args == [args[0]] + args[1..];
      assert multiset(args) == multiset{args[0]} + multiset(args[1..]);
      if st.error.None? && l0.None? && (exists a :: a in args && a in depts) && args[0] !in depts {
        var a :| a in args && a in depts;
        assert a in args[1..];
      }
    }
  }

  lemma {:induction false} UnsubErrorSticks(depts: set<DeptId>, st: UnsubDeptoState, args: seq<string>)
    ensures st.error.Some? ==> UnsubscribeDeptoFrom(depts, st, args) == st
    decreases |args|
  {
    if args != [] {
      UnsubErrorSticks(depts, UnsubscribeDeptoStep(depts, st, args[0]), args[1..]);
    }
  }

  /** `/desuscribir_depto`: it raises `KeyError` exactly when the chat never
      subscribed to a department and some argument is a `DEPTS` id.
      Otherwise each argument is reported once, as deleted, not subscribed
      or failed; a department stays subscribed exactly when it was and was
      not deleted, so that no `DEPTS` argument remains subscribed; and the
      deleted ones are removed once each from the old list. */
  lemma UnsubscribeDeptoCorrect(depts: set<DeptId>, list: Option<seq<DeptId>>, args: seq<string>)
    requires NoDups(list.GetOr([]))
    ensures var r := UnsubscribeDeptoSpec(depts, list, args);
            var l1 := r.list.GetOr([]);
            (r.error.Some? <==> list.None? && exists a :: a in args && a in depts)
            && NoDups(l1)
            && multiset(l1) == multiset(list.GetOr([])) - multiset(r.tally.deleted)
            && (forall x :: x in l1 <==> x in list.GetOr([]) && x !in r.tally.deleted)
            && (r.error.None? ==>
                  r.tally.Counted() == multiset(args)
                  && (forall a :: a in args && a in depts ==> a !in l1))
  {
    var st := UnsubDeptoState(list, UnsubDeptoTally([], [], []), None);
    UnsubscribeDeptoFromKeeps(depts, list, st, args);
    var r := UnsubscribeDeptoSpec(depts, list, args);
    var l1 := r.list.GetOr([]);
    if r.error.Some? {
      UnsubNoErrorWithout(depts, list, st, args);
    }
    forall x ensures x in l1 <==> x in list.GetOr([]) && x !in r.tally.deleted {
      NoDupsCount(list.GetOr([]), x);
      assert multiset(l1)[x] + multiset(r.tally.deleted)[x] == multiset(list.GetOr([]))[x];
    }
  }

  /** Without a `DEPTS` argument, or with a list to read, nothing raises. */
  lemma {:induction false} UnsubNoErrorWithout(depts: set<DeptId>, l0: Option<seq<DeptId>>,
                                               st: UnsubDeptoState, args: seq<string>)
    requires st.error.None? && st.list.None? == l0.None?
    ensures UnsubscribeDeptoFrom(depts, st, args).error.Some? ==>
              l0.None? && exists a :: a in args && a in depts
    decreases |args|
  {
    if args != [] {
      var next := UnsubscribeDeptoStep(depts, st, args[0]);
      if next.error.None? {
        assert next.list.None? == l0.None?;
        UnsubNoErrorWithout(depts, l0, next, args[1..]);
        if UnsubscribeDeptoFrom(depts, st, args).error.Some? {
          var a :| a in args[1..] && a in depts;
          assert a in args;
        }
      }
    }
  }

  /** Unsubscribing a `DEPTS` department right after subscribing it raises
      nothing, removes it and keeps every other subscription. */
  lemma SubscribeThenUnsubscribeDepto(depts: set<DeptId>, list: Option<seq<DeptId>>, d: DeptId)
    requires NoDups(list.GetOr([])) && d in depts
    ensures var sub := SubscribeDeptoSpec(depts, list, [d]);
            var unsub := UnsubscribeDeptoSpec(depts, sub.list, [d]);
            unsub.error.None? && unsub.tally.deleted == [d]
            && d !in unsub.list.GetOr([])
            && (forall y :: y in list.GetOr([]) && y != d ==> y in unsub.list.GetOr([]))
  {
    var l0 := list.GetOr([]);
    var l1 := if d in l0 then l0 else l0 + [d];
    SubscribeOneDepto(depts, list, d);
    assert SubscribeDeptoSpec(depts, list, [d]).list == Some(l1);
    NoDupsSnoc(l0, d);
    assert d in l1 && NoDups(l1);
    assert forall y :: y in l0 ==> y in l1;
    UnsubscribeOneDepto(depts, l1, d);
    RemoveFirstKeepsOthers(l1, d);
  }

  /** Removing `x` keeps every other value. */
  lemma RemoveFirstKeepsOthers<T>(xs: seq<T>, x: T)
    requires x in xs
    ensures forall y :: y in xs && y != x ==> y in RemoveFirst(xs, x)
  {
    var r := RemoveFirst(xs, x);
    forall y | y in xs && y != x
      ensures y in r
    {
      assert multiset(xs)[y] > 0;
      assert multiset(r)[y] == multiset(xs)[y];
    }
  }

  /** `/suscribir_depto` with one department of `DEPTS`. */
  lemma SubscribeOneDepto(depts: set<DeptId>, list: Option<seq<DeptId>>, d: DeptId)
    requires d in depts
    ensures var l0 := list.GetOr([]);
            SubscribeDeptoSpec(depts, list, [d]).list == Some(if d in l0 then l0 else l0 + [d])
  {
    assert [d][0] == d && [d][1..] == [];
    var sub := SubscribeDeptoStep(depts, DeptoState(list, DeptoTally([], [], [])), d);
    assert SubscribeDeptoFrom(depts, sub, []) == sub;
  }

  /** `/desuscribir_depto` with one subscribed department of `DEPTS`. */
  lemma UnsubscribeOneDepto(depts: set<DeptId>, list: seq<DeptId>, d: DeptId)
    requires d in depts && d in list
    ensures UnsubscribeDeptoSpec(depts, Some(list), [d])
            == UnsubDeptoState(Some(RemoveFirst(list, d)), UnsubDeptoTally([d], [], []), None)
  {
    assert [d][0] == d && [d][1..] == [];
    var unsub := UnsubscribeDeptoStep(depts, UnsubDeptoState(Some(list), UnsubDeptoTally([], [], []), None), d);
    assert UnsubscribeDeptoFrom(depts, unsub, []) == unsub;
  }

  // ---------------------------------------------------------------------
  // /desuscribir_curso

  /** The four lists `/desuscribir_curso` reports. */
  datatype UnsubCursoTally = UnsubCursoTally(deleted: seq<Pair>, notSubscribed: seq<Pair>,
                                             failedDepto: seq<Pair>, failed: seq<string>)
  {
    function Size(): nat {
      |deleted| + |notSubscribed| + |failedDepto| + |failed|
    }
  }

  datatype UnsubCursoState = UnsubCursoState(list: Option<seq<Pair>>, tally: UnsubCursoTally)

  /** The pair an unsubscribe argument names: as split when `upper` is false
      (as written), with the course uppercased like subscribing does when it
      is true (as intended). */
  function UnsubscribedPair(arg: string, upper: bool): Option<Pair> {
    match SplitPair(arg)
    case None => None
    case Some(p) => Some(if upper then (p.0, Upper(p.1)) else p)
  }

  /** One argument of `/desuscribir_curso`. */
  function UnsubscribeCursoStep(depts: set<DeptId>, upper: bool, st: UnsubCursoState, arg: string): (r: UnsubCursoState)
    ensures forall x :: x in r.list.GetOr([]) ==> x in st.list.GetOr([])
    ensures UnsubscribedPair(arg, upper).None? ==> r.list == st.list
  {
    match UnsubscribedPair(arg, upper)
    case None => st.(tally := st.tally.(failed := st.tally.failed + [arg]))
    case Some(x) =>
      if x.0 in depts then
        var list := st.list.GetOr([]);
        if x in list then
          RemoveFirstWithin(list, x);
          UnsubCursoState(Some(RemoveFirst(list, x)), st.tally.(deleted := st.tally.deleted + [x]))
        else
          UnsubCursoState(Some(list), st.tally.(notSubscribed := st.tally.notSubscribed + [x]))
      else
        st.(tally := st.tally.(failedDepto := st.tally.failedDepto + [x]))
  }

  function UnsubscribeCursoFrom(depts: set<DeptId>, upper: bool, st: UnsubCursoState, args: seq<string>): UnsubCursoState
    decreases |args|
  {
    if args == [] then st
    else UnsubscribeCursoFrom(depts, upper, UnsubscribeCursoStep(depts, upper, st, args[0]), args[1..])
  }

  /** What `/desuscribir_curso args` leaves; `upper` is false for the code as
      written. */
  function UnsubscribeCursoSpec(depts: set<DeptId>, upper: bool, list: Option<seq<Pair>>, args: seq<string>): UnsubCursoState {
    UnsubscribeCursoFrom(depts, upper, UnsubCursoState(list, UnsubCursoTally([], [], [], [])), args)
  }

  /** What holds of a `/desuscribir_curso` state that started from `l0`. */
  ghost predicate UnsubCursoInv(depts: set<DeptId>, upper: bool, l0: seq<Pair>, st: UnsubCursoState) {
    var list := st.list.GetOr([]);
    NoDups(list)
    && multiset(list) + multiset(st.tally.deleted) == multiset(l0)
    && (forall x :: x in st.tally.deleted ==> x.0 in depts)
    && (forall x :: x in st.tally.notSubscribed ==> x.0 in depts && x !in list)
    && (forall x :: x in st.tally.failedDepto ==> x.0 !in depts)
    && (forall a :: a in st.tally.failed ==> SplitPair(a).None?)
  }

  lemma UnsubscribeCursoStepKeeps(depts: set<DeptId>, upper: bool, l0: seq<Pair>, st: UnsubCursoState, arg: string)
    requires UnsubCursoInv(depts, upper, l0, st)
    ensures var r := UnsubscribeCursoStep(depts, upper, st, arg);
            UnsubCursoInv(depts, upper, l0, r)
            && (forall x :: x in r.list.GetOr([]) ==> x in st.list.GetOr([]))
            && r.tally.Size() == st.tally.Size() + 1
            && (UnsubscribedPair(arg, upper).Some? && UnsubscribedPair(arg, upper).value.0 in depts
                ==> UnsubscribedPair(arg, upper).value !in r.list.GetOr([]))
  {
    var r := UnsubscribeCursoStep(depts, upper, st, arg);
    if UnsubscribedPair(arg, upper).Some? {
      var x := UnsubscribedPair(arg, upper).value;
      var list := st.list.GetOr([]);
      if x.0 in depts && x in list {
        RemoveKeeps(list, st.tally.deleted, x, multiset(l0));
        assert r == UnsubCursoState(Some(RemoveFirst(list, x)), st.tally.(deleted := st.tally.deleted + [x]));
      } else if x.0 in depts {
        assert r == UnsubCursoState(Some(list), st.tally.(notSubscribed := st.tally.notSubscribed + [x]));
      } else {
        assert r == st.(tally := st.tally.(failedDepto := st.tally.failedDepto + [x]));
      }
    } else {
      assert SplitPair(arg).None?;
      assert r == st.(tally := st.tally.(failed := st.tally.failed + [arg]));
    }
  }

  lemma {:induction false} UnsubscribeCursoFromKeeps(depts: set<DeptId>, upper: bool, l0: seq<Pair>,
                                                     st: UnsubCursoState, args: seq<string>)
    requires UnsubCursoInv(depts, upper, l0, st)
    ensures var r := UnsubscribeCursoFrom(depts, upper, st, args);
            UnsubCursoInv(depts, upper, l0, r)
            && (forall x :: x in r.list.GetOr([]) ==> x in st.list.GetOr([]))
            && r.tally.Size() == st.tally.Size() + |args|
            && (forall a :: a in args && UnsubscribedPair(a, upper).Some? && UnsubscribedPair(a, upper).value.0 in depts
                           ==> UnsubscribedPair(a, upper).value !in r.list.GetOr([]))
    decreases |args|
  {
    if args != [] {
      var next := UnsubscribeCursoStep(depts, upper, st, args[0]);
      UnsubscribeCursoStepKeeps(depts, upper, l0, st, args[0]);
      UnsubscribeCursoFromKeeps(depts, upper, l0, next, args[1..]);
      forall a | a in args ensures a == args[0] || a in args[1..] {
      }
    }
  }

  /** Every pair a `/desuscribir_curso` state reported comes from the
      arguments `done` read so far. */
  ghost predicate UnsubCursoNamed(upper: bool, st: UnsubCursoState, done: seq<string>) {
    (forall x :: x in st.tally.deleted ==> NamedBy(x, done, upper))
    && (forall x :: x in st.tally.notSubscribed ==> NamedBy(x, done, upper))
    && (forall x :: x in st.tally.failedDepto ==> NamedBy(x, done, upper))
    && (forall a :: a in st.tally.failed ==> a in done)
  }

  lemma UnsubscribeCursoStepNamed(depts: set<DeptId>, upper: bool, st: UnsubCursoState,
                                  done: seq<string>, arg: string)
    requires UnsubCursoNamed(upper, st, done)
    ensures UnsubCursoNamed(upper, UnsubscribeCursoStep(depts, upper, st, arg), done + [arg])
  {
    var r := UnsubscribeCursoStep(depts, upper, st, arg);
    NamedByGrows(done, arg, upper);
    assert forall a :: a in done ==> a in done + [arg];
    if UnsubscribedPair(arg, upper).Some? {
      var x := UnsubscribedPair(arg, upper).value;
      var list := st.list.GetOr([]);
      if x.0 in depts && x in list {
        assert r.tally == st.tally.(deleted := st.tally.deleted + [x]);
      } else if x.0 in depts {
        assert r.tally == st.tally.(notSubscribed := st.tally.notSubscribed + [x]);
      } else {
        assert r.tally == st.tally.(failedDepto := st.tally.failedDepto + [x]);
      }
    } else {
      assert r.tally == st.tally.(failed := st.tally.failed + [arg]);
    }
  }

  lemma {:induction false} UnsubscribeCursoFromNamed(depts: set<DeptId>, upper: bool, st: UnsubCursoState,
                                                     done: seq<string>, args: seq<string>)
    requires UnsubCursoNamed(upper, st, done)
    ensures UnsubCursoNamed(upper, UnsubscribeCursoFrom(depts, upper, st, args), done + args)
    decreases |args|
  {
    if args != [] {
      UnsubscribeCursoStepNamed(depts, upper, st, done, args[0]);
      UnsubscribeCursoFromNamed(depts, upper, UnsubscribeCursoStep(depts, upper, st, args[0]),
                                done + [args[0]], args[1..]);
      assert done + [args[0]] + args[1..] == done + args;
    }
  }

  /** `/desuscribir_curso`: one report per argument; a pair stays
      subscribed exactly when it was and was not deleted, each deleted pair
      is removed once from the old list and is a pair some argument names,
      so nothing else leaves the list, and no pair the arguments name for a
      `DEPTS` department remains. */
  lemma UnsubscribeCursoCorrect(depts: set<DeptId>, upper: bool, list: Option<seq<Pair>>, args: seq<string>)
    requires NoDups(list.GetOr([]))
    ensures var r := UnsubscribeCursoSpec(depts, upper, list, args);
            var l1 := r.list.GetOr([]);
            r.tally.Size() == |args|
            && NoDups(l1)
            && multiset(l1) == multiset(list.GetOr([])) - multiset(r.tally.deleted)
            && (forall x :: x in l1 <==> x in list.GetOr([]) && x !in r.tally.deleted)
            && (forall a :: a in args && UnsubscribedPair(a, upper).Some? && UnsubscribedPair(a, upper).value.0 in depts
                           ==> UnsubscribedPair(a, upper).value !in l1)
            && (forall x :: x in r.tally.deleted ==> exists a :: a in args && UnsubscribedPair(a, upper) == Some(x))
            && (forall x :: x in list.GetOr([]) && x !in l1 ==>
                  exists a :: a in args && UnsubscribedPair(a, upper) == Some(x))
  {
    var l0 := list.GetOr([]);
    var st := UnsubCursoState(list, UnsubCursoTally([], [], [], []));
    UnsubscribeCursoFromKeeps(depts, upper, l0, st, args);
    var r := UnsubscribeCursoSpec(depts, upper, list, args);
    var l1 := r.list.GetOr([]);
    forall x ensures x in l1 <==> x in l0 && x !in r.tally.deleted {
      NoDupsCount(l0, x);
      assert multiset(l1)[x] + multiset(r.tally.deleted)[x] == multiset(l0)[x];
    }
    assert UnsubCursoNamed(upper, st, []);
    UnsubscribeCursoFromNamed(depts, upper, st, [], args);
    assert [] + args == args;
  }

  /** As written, `/desuscribir_curso` does not uppercase the course: after
      `/suscribir_curso d-c` for a course written with a lower-case first
      letter (say `5-cc3001`), `/desuscribir_curso d-c` reports the pair as
      not subscribed and the subscription stays. */
  lemma LowercaseUnsubscribeMisses(depts: set<DeptId>, current: Snapshot, d: DeptId, c: CourseId)
    requires '-' !in d && '-' !in c && |c| > 0 && 'a' <= c[0] <= 'z'
    requires d in depts && d in current
    ensures var sub := SubscribeCursoSpec(depts, current, None, [d + "-" + c]);
            var unsub := UnsubscribeCursoSpec(depts, false, sub.list, [d + "-" + c]);
            sub.error.None?
            && (d, Upper(c)) in sub.list.GetOr([])
            && unsub.tally.deleted == []
            && unsub.tally.notSubscribed == [(d, c)]
            && (d, Upper(c)) in unsub.list.GetOr([])
  {
    SplitPairOf(d, c);
    UpperChanges(c);
    var arg := d + "-" + c;
    var x := (d, Upper(c));
    assert [arg][1..] == [];
    var st0 := CursoState(None, NoCursoTally, None);
    var sub := SubscribeCursoStep(depts, current, st0, arg);
    assert [arg][0] == arg;
    assert SubscribeCursoFrom(depts, current, sub, []) == sub;
    assert SubscribeCursoSpec(depts, current, None, [arg]) == sub;
    assert st0.list.GetOr([]) == [] && x !in [] && [] + [x] == [x];
    assert sub.list == Some([x]) && sub.error.None?;
    var unsub := UnsubscribeCursoStep(depts, false, UnsubCursoState(sub.list, UnsubCursoTally([], [], [], [])), arg);
    assert UnsubscribeCursoFrom(depts, false, unsub, []) == unsub;
    assert UnsubscribeCursoSpec(depts, false, sub.list, [arg]) == unsub;
    assert (d, c) !in [x];
    assert unsub.list == Some([x]);
  }

  /** A string that starts with a lower-case letter is changed by `upper`. */
  lemma UpperChanges(c: string)
    requires |c| > 0 && 'a' <= c[0] <= 'z'
    ensures Upper(c) != c
  {
    var u := Upper(c);
    assert u[0] == UpperChar(c[0]);
  }

  /** As intended (the course uppercased on both sides), unsubscribing with
      the same argument always removes what subscribing added, and leaves the
      rest of the list as it was. */
  lemma SubscribeThenUnsubscribeCurso(depts: set<DeptId>, current: Snapshot, list: Option<seq<Pair>>, arg: string)
    requires NoDups(list.GetOr([]))
    requires SubscribeCursoSpec(depts, current, list, [arg]).error.None?
    ensures var sub := SubscribeCursoSpec(depts, current, list, [arg]);
            var unsub := UnsubscribeCursoSpec(depts, true, sub.list, [arg]);
            (SubscribedPair(arg).Some? && SubscribedPair(arg).value.0 in depts ==>
               SubscribedPair(arg).value !in unsub.list.GetOr([])
               && unsub.tally.deleted == [SubscribedPair(arg).value])
            && (forall y :: y in list.GetOr([]) && Some(y) != SubscribedPair(arg) ==> y in unsub.list.GetOr([]))
  {
    var sub := SubscribeCursoSpec(depts, current, list, [arg]);
    SubscribeCursoCorrect(depts, current, list, [arg]);
    UnsubscribeCursoCorrect(depts, true, sub.list, [arg]);
    assert UnsubscribedPair(arg, true) == SubscribedPair(arg);
    assert [arg][1..] == [];
    var unsub := UnsubscribeCursoStep(depts, true, UnsubCursoState(sub.list, UnsubCursoTally([], [], [], [])), arg);
    assert [arg][0] == arg;
    assert UnsubscribeCursoFrom(depts, true, unsub, []) == unsub;
    assert UnsubscribeCursoSpec(depts, true, sub.list, [arg]) == unsub;
    assert forall z :: z in unsub.tally.deleted ==> Some(z) == SubscribedPair(arg);
    forall y | y in list.GetOr([]) && Some(y) != SubscribedPair(arg) ensures y in unsub.list.GetOr([]) {
      PrefixMember(list.GetOr([]), sub.list.GetOr([]), y);
    }
  }

  // ---------------------------------------------------------------------
  // The chat's data and the command handlers

  /** What a subscription command answers: the usage text when called
      without arguments, the report of its tally, or the `KeyError` it
      raised. */
  datatype Reply<T> = Usage | Report(tally: T) | Raised(error: CommandError)

  /** What `/suscripciones` lists: whether notifications are on and the two
      subscription lists, empty when absent. */
  datatype Summary = Summary(enabled: bool, deptos: seq<DeptId>, cursos: seq<Pair>)

  /** `context.chat_data` of one chat: `enable` (false when absent) and the
      two subscription lists, absent until a command creates them. */
  class ChatData {
    var enable: bool
    var subscribedDeptos: Option<seq<DeptId>>
    var subscribedCursos: Option<seq<Pair>>

    /** Each subscription is held once. */
    ghost predicate Valid()
      reads this
    {
      NoDups(subscribedDeptos.GetOr([])) && NoDups(subscribedCursos.GetOr([]))
    }

    /** The data of a chat the bot has not heard from. */
    constructor ()
      ensures Valid()
      ensures !enable && subscribedDeptos == None && subscribedCursos == None
    {
      enable := false;
      subscribedDeptos := None;
      subscribedCursos := None;
    }

    /** `/start`: switches notifications on; `wasOn` says the chat already
        had them on (and got the "already on" reply). */
    method Start() returns (wasOn: bool)
      modifies this
      ensures wasOn == old(enable) && enable
      ensures subscribedDeptos == old(subscribedDeptos) && subscribedCursos == old(subscribedCursos)
    {
      if enable {
        wasOn := true;
      } else {
        enable := true;
        wasOn := false;
      }
    }

    /** `/stop`: switches notifications off and keeps the subscriptions. */
    method Stop()
      modifies this
      ensures !enable
      ensures subscribedDeptos == old(subscribedDeptos) && subscribedCursos == old(subscribedCursos)
    {
      enable := false;
    }

    /** `/suscripciones`: lists every stored subscription, once each and in
        the order they were stored. */
    function Subscriptions(): (r: Summary)
      reads this
      ensures r.enabled == enable
      ensures forall d :: d in r.deptos <==> d in subscribedDeptos.GetOr([])
      ensures forall x :: x in r.cursos <==> x in subscribedCursos.GetOr([])
      ensures |r.deptos| == |subscribedDeptos.GetOr([])| && |r.cursos| == |subscribedCursos.GetOr([])|
      ensures InOrder(r.deptos, subscribedDeptos.GetOr([])) && InOrder(r.cursos, subscribedCursos.GetOr([]))
      ensures Valid() ==> NoDups(r.deptos) && NoDups(r.cursos)
      ensures subscribedDeptos.None? ==> r.deptos == []
      ensures subscribedCursos.None? ==> r.cursos == []
    {
      InOrderSelf(subscribedDeptos.GetOr([]));
      InOrderSelf(subscribedCursos.GetOr([]));
      Summary(enable, subscribedDeptos.GetOr([]), subscribedCursos.GetOr([]))
    }

    /** `/suscribir_depto args`; `remind` is the second message sent when
        something was added to a chat with notifications off. */
    method SubscribeDepto(depts: set<DeptId>, args: seq<string>) returns (reply: Reply<DeptoTally>, remind: bool)
      requires Valid()
      modifies this
      ensures Valid()
      ensures |args| == 0 ==> reply == Usage && !remind && subscribedDeptos == old(subscribedDeptos)
      ensures |args| > 0 ==>
                var r := SubscribeDeptoSpec(depts, old(subscribedDeptos), args);
                reply == Report(r.tally) && subscribedDeptos == r.list
                && (remind <==> |r.tally.added| > 0 && !enable)
                && (forall a :: a in args && a in depts ==> a in Subscriptions().deptos)
      ensures enable == old(enable) && subscribedCursos == old(subscribedCursos)
    {
      if |args| == 0 {
        return Usage, false;
      }
      SubscribeDeptoCorrect(depts, subscribedDeptos, args);
      var added, already, failed := [], [], [];
      for i := 0 to |args|
        invariant SubscribeDeptoFrom(depts, DeptoState(subscribedDeptos, DeptoTally(added, already, failed)), args[i..])
                  == SubscribeDeptoSpec(depts, old(subscribedDeptos), args)
        invariant enable == old(enable) && subscribedCursos == old(subscribedCursos)
      {
        var arg := args[i];
        assert args[i..][1..] == args[i + 1..];
        if arg in depts {
          if subscribedDeptos.None? {
            subscribedDeptos := Some([]);
          }
          if arg !in subscribedDeptos.value {
            added := added + [arg];
            subscribedDeptos := Some(subscribedDeptos.value + [arg]);
          } else {
            already := already + [arg];
          }
        } else {
          failed := failed + [arg];
        }
      }
      assert args[|args|..] == [];
      reply := Report(DeptoTally(added, already, failed));
      remind := |added| > 0 && !enable;
    }

    /** `/suscribir_curso args`, reading `current_data` for known courses. */
    method SubscribeCurso(depts: set<DeptId>, current: Snapshot, args: seq<string>)
      returns (reply: Reply<CursoTally>, remind: bool)
      requires Valid()
      modifies this
      ensures Valid()
      ensures |args| == 0 ==> reply == Usage && !remind && subscribedCursos == old(subscribedCursos)
      ensures |args| > 0 ==>
                var r := SubscribeCursoSpec(depts, current, old(subscribedCursos), args);
                subscribedCursos == r.list
                && (r.error.Some? ==> reply == Raised(r.error.value) && !remind)
                && (r.error.None? ==>
                      reply == Report(r.tally)
                      && (remind <==> (|r.tally.added| > 0 || |r.tally.unknown| > 0) && !enable))
      ensures enable == old(enable) && subscribedDeptos == old(subscribedDeptos)
    {
      if |args| == 0 {
        return Usage, false;
      }
      var added, already, unknown, failedDepto, failed := [], [], [], [], [];
      for i := 0 to |args|
        invariant SubscribeCursoFrom(depts, current,
                    CursoState(subscribedCursos, CursoTally(added, already, unknown, failedDepto, failed), None), args[i..])
                  == SubscribeCursoSpec(depts, current, old(subscribedCursos), args)
        invariant enable == old(enable) && subscribedDeptos == old(subscribedDeptos)
      {
        var arg := args[i];
        assert args[i..][1..] == args[i + 1..];
        ghost var st := CursoState(subscribedCursos, CursoTally(added, already, unknown, failedDepto, failed), None);
        var parts := SplitPair(arg);
        if parts.None? {
          failed := failed + [arg];
          continue;
        }
        var d, c := parts.value.0, Upper(parts.value.1);
        if d in depts {
          if subscribedCursos.None? {
            subscribedCursos := Some([]);
          }
          if (d, c) !in subscribedCursos.value {
            subscribedCursos := Some(subscribedCursos.value + [(d, c)]);
            if d !in current {
              ghost var raised := CursoState(subscribedCursos, st.tally, Some(KeyError(d)));
              assert SubscribeCursoStep(depts, current, st, arg) == raised;
              ErrorSticks(depts, current, raised, args[i + 1..]);
              SubscribeCursoCorrect(depts, current, old(subscribedCursos), args);
              return Raised(KeyError(d)), false;
            }
            if c in current[d].courses {
              added := added + [(d, c)];
            } else {
              unknown := unknown + [(d, c)];
            }
          } else {
            already := already + [(d, c)];
          }
        } else {
          failedDepto := failedDepto + [(d, c)];
        }
        assert SubscribeCursoStep(depts, current, st, arg)
               == CursoState(subscribedCursos, CursoTally(added, already, unknown, failedDepto, failed), None);
      }
      assert args[|args|..] == [];
      SubscribeCursoCorrect(depts, current, old(subscribedCursos), args);
      reply := Report(CursoTally(added, already, unknown, failedDepto, failed));
      remind := (|added| > 0 || |unknown| > 0) && !enable;
    }

    /** `/desuscribir_depto args`. */
    method UnsubscribeDepto(depts: set<DeptId>, args: seq<string>) returns (reply: Reply<UnsubDeptoTally>)
      requires Valid()
      modifies this
      ensures Valid()
      ensures |args| == 0 ==> reply == Usage && subscribedDeptos == old(subscribedDeptos)
      ensures |args| > 0 ==>
                var r := UnsubscribeDeptoSpec(depts, old(subscribedDeptos), args);
                subscribedDeptos == r.list
                && (r.error.Some? ==> reply == Raised(r.error.value))
                && (r.error.None? ==> reply == Report(r.tally))
      ensures enable == old(enable) && subscribedCursos == old(subscribedCursos)
    {
      if |args| == 0 {
        return Usage;
      }
      var deleted, notSubscribed, failed := [], [], [];
      for i := 0 to |args|
        invariant UnsubscribeDeptoFrom(depts,
                    UnsubDeptoState(subscribedDeptos, UnsubDeptoTally(deleted, notSubscribed, failed), None), args[i..])
                  == UnsubscribeDeptoSpec(depts, old(subscribedDeptos), args)
        invariant enable == old(enable) && subscribedCursos == old(subscribedCursos)
      {
        var arg := args[i];
        assert args[i..][1..] == args[i + 1..];
        ghost var st := UnsubDeptoState(subscribedDeptos, UnsubDeptoTally(deleted, notSubscribed, failed), None);
        if arg in depts {
          if subscribedDeptos.None? {
            UnsubErrorSticks(depts, st.(error := Some(KeyError(DeptosKey))), args[i + 1..]);
            UnsubscribeDeptoCorrect(depts, old(subscribedDeptos), args);
            return Raised(KeyError(DeptosKey));
          }
          if arg in subscribedDeptos.value {
            deleted := deleted + [arg];
            subscribedDeptos := Some(RemoveFirst(subscribedDeptos.value, arg));
          } else {
            notSubscribed := notSubscribed + [arg];
          }
        } else {
          failed := failed + [arg];
        }
        assert UnsubscribeDeptoStep(depts, st, arg)
               == UnsubDeptoState(subscribedDeptos, UnsubDeptoTally(deleted, notSubscribed, failed), None);
      }
      assert args[|args|..] == [];
      UnsubscribeDeptoCorrect(depts, old(subscribedDeptos), args);
      reply := Report(UnsubDeptoTally(deleted, notSubscribed, failed));
    }

    /** `/desuscribir_curso args`, as written: the course is not uppercased. */
    method UnsubscribeCurso(depts: set<DeptId>, args: seq<string>) returns (reply: Reply<UnsubCursoTally>)
      requires Valid()
      modifies this
      ensures Valid()
      ensures |args| == 0 ==> reply == Usage && subscribedCursos == old(subscribedCursos)
      ensures |args| > 0 ==>
                var r := UnsubscribeCursoSpec(depts, false, old(subscribedCursos), args);
                subscribedCursos == r.list && reply == Report(r.tally)
      ensures enable == old(enable) && subscribedDeptos == old(subscribedDeptos)
    {
      if |args| == 0 {
        return Usage;
      }
      var deleted, notSubscribed, failedDepto, failed := [], [], [], [];
      for i := 0 to |args|
        invariant UnsubscribeCursoFrom(depts, false,
                    UnsubCursoState(subscribedCursos, UnsubCursoTally(deleted, notSubscribed, failedDepto, failed)), args[i..])
                  == UnsubscribeCursoSpec(depts, false, old(subscribedCursos), args)
        invariant enable == old(enable) && subscribedDeptos == old(subscribedDeptos)
      {
        var arg := args[i];
        assert args[i..][1..] == args[i + 1..];
        ghost var st := UnsubCursoState(subscribedCursos, UnsubCursoTally(deleted, notSubscribed, failedDepto, failed));
        var parts := SplitPair(arg);
        if parts.None? {
          failed := failed + [arg];
          continue;
        }
        var x := parts.value;
        if x.0 in depts {
          if subscribedCursos.None? {
            subscribedCursos := Some([]);
          }
          if x in subscribedCursos.value {
            deleted := deleted + [x];
            subscribedCursos := Some(RemoveFirst(subscribedCursos.value, x));
          } else {
            notSubscribed := notSubscribed + [x];
          }
        } else {
          failedDepto := failedDepto + [x];
        }
        assert UnsubscribeCursoStep(depts, false, st, arg)
               == UnsubCursoState(subscribedCursos, UnsubCursoTally(deleted, notSubscribed, failedDepto, failed));
      }
      assert args[|args|..] == [];
      UnsubscribeCursoCorrect(depts, false, old(subscribedCursos), args);
      reply := Report(UnsubCursoTally(deleted, notSubscribed, failedDepto, failed));
    }
  }
}
