/** The schedule normaliser of utils.py: `full_strip`, `parse_horario` and
    `horarios_to_string`. A schedule cell is a list of nodes; the text nodes
    are cleaned, classified by their label and split into time slots. */
module Schedule {
  import opened Wrappers
  import opened PyStr

  /** One node of a schedule cell: a text node or any other markup node. */
  datatype Fragment = Text(text: string) | Markup

  /** A section's schedule: lecture slots (`catedra`), auxiliary-session slots
      (`auxiliar`) and the two lists of `control`: exam slots and exam weeks. */
  datatype Schedule = Schedule(catedra: seq<string>, auxiliar: seq<string>,
                               controlSlots: seq<string>, controlWeeks: seq<string>)

  /** `{"catedra": [], "auxiliar": [], "control": [[], []]}` */
  const Empty := Schedule([], [], [], [])

  /** The three labels, tried in this order. */
  datatype Category = Catedra | Auxiliar | Control

  const ItemSep := ", "
  const WeekSep := ", Semana: "

  function Label(cat: Category): string {
    match cat
    case Catedra => "Cátedra"
    case Auxiliar => "Auxiliar"
    case Control => "Control"
  }

  /** The character SET passed to `lstrip` for each label: the label and ": ". */
  function LabelChars(cat: Category): set<char> {
    set c | c in Label(cat) + ": "
  }

  /** `full_strip`: drop every newline and tab, then strip spaces at both ends. */
  function FullStrip(st: string): (r: string)
    ensures '\n' !in r && '\t' !in r
    ensures r == [] || (r[0] != ' ' && r[|r| - 1] != ' ')
  {
    var t := Remove(Remove(st, '\n'), '\t');
    assert multiset(t)['\n'] == 0;
    StripAbsent(t, {' '}, '\n');
    StripAbsent(t, {' '}, '\t');
    Strip(t, {' '})
  }

  /** Cleaning keeps the interior of the text: `full_strip` returns a slice
      of the text without its newlines and tabs, and what it cuts at the two
      ends is spaces. */
  lemma FullStripSlice(st: string) returns (i: nat, j: nat)
    ensures var t := Remove(Remove(st, '\n'), '\t');
            && i <= j <= |t| && FullStrip(st) == t[i..j]
            && (forall k :: 0 <= k < i ==> t[k] == ' ')
            && (forall k :: j <= k < |t| ==> t[k] == ' ')
  {
    var t := Remove(Remove(st, '\n'), '\t');
    i, j := StripSlice(t, {' '});
  }

  /** `full_strip` is idempotent. */
  lemma FullStripIdempotent(st: string)
    ensures FullStrip(FullStrip(st)) == FullStrip(st)
  {
    var r := FullStrip(st);
    RemoveAbsent(r, '\n');
    RemoveAbsent(r, '\t');
  }

  lemma {:induction false} RemoveAbsent(s: string, c: char)
    requires c !in s
    ensures Remove(s, c) == s
  {
    if s != [] {
      var t := s[1..];
      assert s == [s[0]] + t;
      RemoveAbsent(t, c);
      RemoveHeadKept(s, c);
    }
  }

  lemma RemoveHeadKept(s: string, c: char)
    requires s != [] && s[0] != c
    ensures Remove(s, c) == [s[0]] + Remove(s[1..], c)
  {
  }

  /** The label a cleaned fragment starts with, tried as Cátedra, Auxiliar, Control in turn. */
  function Classify(el: string): (r: Option<Category>)
    ensures r.Some? ==> StartsWith(el, Label(r.value))
    ensures r.None? <==> !StartsWith(el, Label(Catedra)) && !StartsWith(el, Label(Auxiliar))
                         && !StartsWith(el, Label(Control))
    ensures r != Some(Catedra) ==> !StartsWith(el, Label(Catedra))
    ensures r == Some(Control) ==> !StartsWith(el, Label(Auxiliar))
  {
    if StartsWith(el, Label(Catedra)) then Some(Catedra)
    else if StartsWith(el, Label(Auxiliar)) then Some(Auxiliar)
    else if StartsWith(el, Label(Control)) then Some(Control)
    else None
  }

  /** The label of a node: none for markup and for unlabelled text. */
  function FragmentLabel(f: Fragment): Option<Category> {
    match f
    case Markup => None
    case Text(raw) => Classify(FullStrip(raw))
  }

  /** What a labelled, cleaned fragment `el` writes into the result. */
  function Apply(r: Schedule, cat: Category, el: string): Schedule
  {
    match cat
    case Catedra => r.(catedra := Split(LStrip(el, LabelChars(Catedra)), ItemSep))
    case Auxiliar => r.(auxiliar := Split(LStrip(el, LabelChars(Auxiliar)), ItemSep))
    case Control =>
      var controlsplit := Split(el, WeekSep);
      r.(controlSlots := Split(LStrip(controlsplit[0], LabelChars(Control)), ItemSep),
         controlWeeks := if |controlsplit| > 1 then Split(controlsplit[1], ItemSep) else [])
  }

  /** One iteration of the loop of `parse_horario`. */
  function ParseStep(r: Schedule, f: Fragment): Schedule
  {
    match f
    case Markup => r
    case Text(raw) =>
      var el := FullStrip(raw);
      match Classify(el)
      case None => r
      case Some(cat) => Apply(r, cat, el)
  }

  /** The loop of `parse_horario` run from the partial result `r`. */
  function ParseFrom(r: Schedule, frags: seq<Fragment>): Schedule
    decreases |frags|
  {
    if frags == [] then r else ParseFrom(ParseStep(r, frags[0]), frags[1..])
  }

  /** What `parse_horario` returns. */
  function Parse(frags: seq<Fragment>): Schedule {
    ParseFrom(Empty, frags)
  }

  /** `parse_horario`: starts from the empty schedule and overwrites the
      fields of each labelled fragment's category in turn. */
  method ParseHorario(horarios: seq<Fragment>) returns (result: Schedule)
    ensures result == Parse(horarios)
  {
    result := Empty;
    var i := 0;
    while i < |horarios|
      invariant 0 <= i <= |horarios|
      invariant ParseFrom(result, horarios[i..]) == Parse(horarios)
    {
      var el := horarios[i];
      assert horarios[i..][1..] == horarios[i + 1..];
      i := i + 1;
      if el.Markup? {
        continue;
      }
      var text := FullStrip(el.text);
      if StartsWith(text, Label(Catedra)) {
        result := result.(catedra := Split(LStrip(text, LabelChars(Catedra)), ItemSep));
      } else if StartsWith(text, Label(Auxiliar)) {
        result := result.(auxiliar := Split(LStrip(text, LabelChars(Auxiliar)), ItemSep));
      } else if StartsWith(text, Label(Control)) {
        var controlsplit := Split(text, WeekSep);
        result := result.(controlSlots := Split(LStrip(controlsplit[0], LabelChars(Control)), ItemSep));
        result := result.(controlWeeks := if |controlsplit| > 1 then Split(controlsplit[1], ItemSep) else []);
      }
    }
  }

  lemma {:induction false} ParseFromAppend(r: Schedule, a: seq<Fragment>, b: seq<Fragment>)
    ensures ParseFrom(r, a + b) == ParseFrom(ParseFrom(r, a), b)
    decreases |a|
  {
    if a == [] {
      assert a + b == b;
    } else {
      assert (a + b)[0] == a[0];
      assert (a + b)[1..] == a[1..] + b;
      ParseFromAppend(ParseStep(r, a[0]), a[1..], b);
    }
  }

  /** Fragments without a recognised label (markup, or text with any other
      prefix) leave the result exactly as it was. */
  lemma {:induction false} UnlabelledKeep(r: Schedule, frags: seq<Fragment>)
    requires forall k :: 0 <= k < |frags| ==> FragmentLabel(frags[k]).None?
    ensures ParseFrom(r, frags) == r
    decreases |frags|
  {
    if frags != [] {
      assert FragmentLabel(frags[0]).None?;
      UnlabelledKeep(r, frags[1..]);
    }
  }

  /** With no labelled fragment, `parse_horario` returns the defaults. */
  lemma NoLabelGivesEmpty(frags: seq<Fragment>)
    requires forall k :: 0 <= k < |frags| ==> FragmentLabel(frags[k]).None?
    ensures Parse(frags) == Empty
  {
    UnlabelledKeep(Empty, frags);
  }

  /** The text fragments of a cell, in order. */
  function Texts(frags: seq<Fragment>): (r: seq<Fragment>)
    ensures forall k :: 0 <= k < |r| ==> r[k].Text?
  {
    if frags == [] then []
    else (if frags[0].Text? then [frags[0]] else []) + Texts(frags[1..])
  }

  /** Non-string nodes are skipped: only the text nodes decide the result. */
  lemma {:induction false} MarkupSkipped(r: Schedule, frags: seq<Fragment>)
    ensures ParseFrom(r, frags) == ParseFrom(r, Texts(frags))
    decreases |frags|
  {
    if frags != [] {
      MarkupSkipped(ParseStep(r, frags[0]), frags[1..]);
      var rest := Texts(frags[1..]);
      if frags[0].Text? {
        assert Texts(frags) == [frags[0]] + rest;
        assert ([frags[0]] + rest)[1..] == rest;
      } else {
        assert Texts(frags) == rest;
      }
    }
  }

  /** The slot list a category owns. */
  function Slots(r: Schedule, cat: Category): seq<string> {
    match cat
    case Catedra => r.catedra
    case Auxiliar => r.auxiliar
    case Control => r.controlSlots
  }

  /** The fields a category owns are equal in `a` and `b`. */
  predicate SameFields(a: Schedule, b: Schedule, cat: Category) {
    match cat
    case Catedra => a.catedra == b.catedra
    case Auxiliar => a.auxiliar == b.auxiliar
    case Control => a.controlSlots == b.controlSlots && a.controlWeeks == b.controlWeeks
  }

  /** Fragments with another label (or none) leave a category's fields alone. */
  lemma {:induction false} OtherLabelsKeep(r: Schedule, frags: seq<Fragment>, cat: Category)
    requires forall k :: 0 <= k < |frags| ==> FragmentLabel(frags[k]) != Some(cat)
    ensures SameFields(ParseFrom(r, frags), r, cat)
    decreases |frags|
  {
    if frags != [] {
      var next := ParseStep(r, frags[0]);
      StepKeepsOthers(r, frags[0], cat);
      forall k | 0 <= k < |frags[1..]|
        ensures FragmentLabel(frags[1..][k]) != Some(cat)
      {
        assert frags[1..][k] == frags[k + 1];
      }
      OtherLabelsKeep(next, frags[1..], cat);
      assert ParseFrom(r, frags) == ParseFrom(next, frags[1..]);
      SameFieldsTrans(ParseFrom(r, frags), next, r, cat);
    }
  }

  /** A fragment without a category's label leaves that category's fields alone. */
  lemma StepKeepsOthers(r: Schedule, f: Fragment, cat: Category)
    requires FragmentLabel(f) != Some(cat)
    ensures SameFields(ParseStep(r, f), r, cat)
  {
  }

  /** A category whose label is never seen stays empty. */
  lemma UnseenCategoryEmpty(frags: seq<Fragment>, cat: Category)
    requires forall k :: 0 <= k < |frags| ==> FragmentLabel(frags[k]) != Some(cat)
    ensures Slots(Parse(frags), cat) == []
    ensures cat == Control ==> Parse(frags).controlWeeks == []
  {
    OtherLabelsKeep(Empty, frags, cat);
  }

  /** Last one wins: a category's fields are those written by the last
      fragment carrying its label, whatever came before. */
  lemma {:induction false} LastWins(frags: seq<Fragment>, k: nat, cat: Category)
    requires k < |frags| && FragmentLabel(frags[k]) == Some(cat)
    requires forall j :: k < j < |frags| ==> FragmentLabel(frags[j]) != Some(cat)
    ensures SameFields(Parse(frags), Apply(Empty, cat, FullStrip(frags[k].text)), cat)
  {
    var mid := ParseStep(ParseFrom(Empty, frags[..k]), frags[k]);
    ParseAround(frags, k);
    StepSets(ParseFrom(Empty, frags[..k]), frags[k], cat);
    var after := frags[k + 1..];
    forall j | 0 <= j < |after|
      ensures FragmentLabel(after[j]) != Some(cat)
    {
      assert after[j] == frags[k + 1 + j];
    }
    OtherLabelsKeep(mid, after, cat);
    SameFieldsTrans(Parse(frags), mid, Apply(Empty, cat, FullStrip(frags[k].text)), cat);
  }

  /** The loop over `frags` is the loop up to `k`, the step at `k`, and the
      loop over the rest. */
  lemma ParseAround(frags: seq<Fragment>, k: nat)
    requires k < |frags|
    ensures Parse(frags) == ParseFrom(ParseStep(ParseFrom(Empty, frags[..k]), frags[k]), frags[k + 1..])
  {
    var before, pre, after := frags[..k], frags[..k + 1], frags[k + 1..];
    assert frags == pre + after;
    assert pre == before + [frags[k]];
    ParseFromAppend(Empty, pre, after);
    ParseFromAppend(Empty, before, [frags[k]]);
    ParseOne(ParseFrom(Empty, before), frags[k]);
  }

  lemma ParseOne(r: Schedule, f: Fragment)
    ensures ParseFrom(r, [f]) == ParseStep(r, f)
  {
    assert [f][0] == f && [f][1..] == [];
  }

  /** A fragment with a category's label sets that category's fields the
      same way whatever the partial result. */
  lemma StepSets(r: Schedule, f: Fragment, cat: Category)
    requires FragmentLabel(f) == Some(cat)
    ensures SameFields(ParseStep(r, f), Apply(Empty, cat, FullStrip(f.text)), cat)
  {
    assert ParseStep(r, f) == Apply(r, cat, FullStrip(f.text));
  }

  lemma SameFieldsTrans(a: Schedule, b: Schedule, c: Schedule, cat: Category)
    requires SameFields(a, b, cat) && SameFields(b, c, cat)
    ensures SameFields(a, c, cat)
  {
  }

  /** A list written for a label is never empty, and its first item does not
      start with a character of the label's `lstrip` set. */
  predicate WellShaped(items: seq<string>, cat: Category) {
    |items| >= 1 && (items[0] == [] || items[0][0] !in LabelChars(cat))
  }

  lemma SplitStripped(s: string, chars: set<char>)
    ensures var items := Split(LStrip(s, chars), ItemSep);
            |items| >= 1 && (items[0] == [] || items[0][0] !in chars)
  {
    var l := LStrip(s, chars);
    SplitFirst(l, ItemSep);
  }

  lemma ApplyShape(r: Schedule, cat: Category, el: string)
    ensures WellShaped(Slots(Apply(r, cat, el), cat), cat)
  {
    match cat
    case Catedra => SplitStripped(el, LabelChars(Catedra));
    case Auxiliar => SplitStripped(el, LabelChars(Auxiliar));
    case Control => SplitStripped(Split(el, WeekSep)[0], LabelChars(Control));
  }

  /** Once its label has been seen (at index `k`), a category is non-empty
      and its first item does not start with a character of the label's set. */
  lemma SeenCategoryShape(r: Schedule, frags: seq<Fragment>, k: nat, cat: Category)
    requires k < |frags| && FragmentLabel(frags[k]) == Some(cat)
    ensures WellShaped(Slots(ParseFrom(r, frags), cat), cat)
  {
    assert Labelled(frags, cat);
    LabelledShape(r, frags, cat);
  }

  /** Some fragment carries the label of `cat`. */
  ghost predicate Labelled(frags: seq<Fragment>, cat: Category) {
    exists j :: 0 <= j < |frags| && FragmentLabel(frags[j]) == Some(cat)
  }

  lemma {:induction false} LabelledShape(r: Schedule, frags: seq<Fragment>, cat: Category)
    requires Labelled(frags, cat)
    ensures WellShaped(Slots(ParseFrom(r, frags), cat), cat)
    decreases |frags|
  {
    var j :| 0 <= j < |frags| && FragmentLabel(frags[j]) == Some(cat);
    if j > 0 {
      assert frags[1..][j - 1] == frags[j];
    }
    if Labelled(frags[1..], cat) {
      var next := ParseStep(r, frags[0]);
      assert ParseFrom(r, frags) == ParseFrom(next, frags[1..]);
      LabelledShape(next, frags[1..], cat);
    } else {
      LastLabelShape(r, frags, cat);
    }
  }

  /** The category's last label is the first fragment. */
  lemma LastLabelShape(r: Schedule, frags: seq<Fragment>, cat: Category)
    requires |frags| > 0 && FragmentLabel(frags[0]) == Some(cat) && !Labelled(frags[1..], cat)
    ensures WellShaped(Slots(ParseFrom(r, frags), cat), cat)
  {
    var next := ParseStep(r, frags[0]);
    assert ParseFrom(r, frags) == ParseFrom(next, frags[1..]);
    assert next == Apply(r, cat, FullStrip(frags[0].text));
    OtherLabelsKeep(next, frags[1..], cat);
    ApplyShape(r, cat, FullStrip(frags[0].text));
  }

  /** A Control fragment: the slots come from the text before the first
      ", Semana: " and the weeks from the piece after it (up to a second one,
      if any); without the separator there are no weeks. */
  lemma ControlFields(r: Schedule, el: string)
    ensures Find(el, WeekSep).None? ==>
              Apply(r, Control, el).controlSlots == Split(LStrip(el, LabelChars(Control)), ItemSep)
              && Apply(r, Control, el).controlWeeks == []
    ensures Find(el, WeekSep).Some? ==>
              var i := Find(el, WeekSep).value;
              Apply(r, Control, el).controlSlots == Split(LStrip(el[..i], LabelChars(Control)), ItemSep)
              && Apply(r, Control, el).controlWeeks == Split(UpTo(el[i + |WeekSep|..], WeekSep), ItemSep)
  {
    SplitFirst(el, WeekSep);
  }

  /** `horarios_to_string`: one line per category. */
  function Line(indent: nat, caption: string, items: seq<string>): string {
    Spaces(indent) + "<i>" + caption + Join(items, ItemSep) + "</i>\n"
  }

  /** `horarios_to_string`: a line for each non-empty list, in the order
      catedra, auxiliar, control slots, control weeks. */
  function HorariosToString(h: Schedule, indent: nat): (r: string)
    ensures r == "" <==> h == Empty
  {
    (if |h.catedra| > 0 then Line(indent, "Cátedra: ", h.catedra) else "")
    + (if |h.auxiliar| > 0 then Line(indent, "Auxiliar: ", h.auxiliar) else "")
    + (if |h.controlSlots| > 0 then Line(indent, "Control: ", h.controlSlots) else "")
    + (if |h.controlWeeks| > 0 then Line(indent, "Semanas ", h.controlWeeks) else "")
  }

  /** How many of the four lists are non-empty. */
  function Filled(h: Schedule): nat {
    (if |h.catedra| > 0 then 1 else 0) + (if |h.auxiliar| > 0 then 1 else 0)
    + (if |h.controlSlots| > 0 then 1 else 0) + (if |h.controlWeeks| > 0 then 1 else 0)
  }

  /** No item of any list holds a newline. */
  predicate NoNewlines(h: Schedule) {
    && (forall k :: 0 <= k < |h.catedra| ==> '\n' !in h.catedra[k])
    && (forall k :: 0 <= k < |h.auxiliar| ==> '\n' !in h.auxiliar[k])
    && (forall k :: 0 <= k < |h.controlSlots| ==> '\n' !in h.controlSlots[k])
    && (forall k :: 0 <= k < |h.controlWeeks| ==> '\n' !in h.controlWeeks[k])
  }

  /** Each line starts with exactly `indent` spaces and ends with its only newline. */
  lemma LineShape(indent: nat, caption: string, items: seq<string>)
    requires '\n' !in caption
    requires forall k :: 0 <= k < |items| ==> '\n' !in items[k]
    ensures var l := Line(indent, caption, items);
            l[..indent] == Spaces(indent) && l[indent] == '<' && l[|l| - 1] == '\n'
            && Count(l, '\n') == 1
  {
    var body := "<i>" + caption + Join(items, ItemSep) + "</i>";
    assert Line(indent, caption, items) == Spaces(indent) + body + "\n";
    JoinChars(items, ItemSep, '\n');
    assert '\n' !in body;
    CountAbsent(Spaces(indent), '\n');
    CountAbsent(body, '\n');
    CountAppend(Spaces(indent), body, '\n');
    CountAppend(Spaces(indent) + body, "\n", '\n');
  }

  lemma LineCount(indent: nat, caption: string, items: seq<string>, present: bool)
    requires '\n' !in caption
    requires forall k :: 0 <= k < |items| ==> '\n' !in items[k]
    ensures Count(if present then Line(indent, caption, items) else "", '\n') == if present then 1 else 0
  {
    if present { LineShape(indent, caption, items); }
  }

  /** The rendering has one line per non-empty list. */
  lemma RenderLineCount(h: Schedule, indent: nat)
    requires NoNewlines(h)
    ensures Count(HorariosToString(h, indent), '\n') == Filled(h)
  {
    var a := if |h.catedra| > 0 then Line(indent, "Cátedra: ", h.catedra) else "";
    var b := if |h.auxiliar| > 0 then Line(indent, "Auxiliar: ", h.auxiliar) else "";
    var c := if |h.controlSlots| > 0 then Line(indent, "Control: ", h.controlSlots) else "";
    var d := if |h.controlWeeks| > 0 then Line(indent, "Semanas ", h.controlWeeks) else "";
    assert HorariosToString(h, indent) == a + b + c + d;
    CaptionsOneLine();
    LineCount(indent, "Cátedra: ", h.catedra, |h.catedra| > 0);
    LineCount(indent, "Auxiliar: ", h.auxiliar, |h.auxiliar| > 0);
    LineCount(indent, "Control: ", h.controlSlots, |h.controlSlots| > 0);
    LineCount(indent, "Semanas ", h.controlWeeks, |h.controlWeeks| > 0);
    CountAppend(a, b, '\n');
    CountAppend(a + b, c, '\n');
    CountAppend(a + b + c, d, '\n');
  }

  lemma CaptionsOneLine()
    ensures '\n' !in "Cátedra: " && '\n' !in "Auxiliar: " && '\n' !in "Control: " && '\n' !in "Semanas "
  {
  }

  lemma SplitNoNewline(s: string, sep: string)
    requires |sep| > 0 && '\n' !in s
    ensures forall k :: 0 <= k < |Split(s, sep)| ==> '\n' !in Split(s, sep)[k]
  {
    SplitPiecesFromText(s, sep);
  }

  lemma ApplyNoNewlines(r: Schedule, cat: Category, el: string)
    requires NoNewlines(r) && '\n' !in el
    ensures NoNewlines(Apply(r, cat, el))
  {
    match cat
    case Catedra => SplitNoNewline(LStrip(el, LabelChars(Catedra)), ItemSep);
    case Auxiliar => SplitNoNewline(LStrip(el, LabelChars(Auxiliar)), ItemSep);
    case Control =>
      var controlsplit := Split(el, WeekSep);
      SplitNoNewline(el, WeekSep);
      SplitNoNewline(LStrip(controlsplit[0], LabelChars(Control)), ItemSep);
      if |controlsplit| > 1 {
        SplitNoNewline(controlsplit[1], ItemSep);
      }
  }

  lemma {:induction false} ParseFromNoNewlines(r: Schedule, frags: seq<Fragment>)
    requires NoNewlines(r)
    ensures NoNewlines(ParseFrom(r, frags))
    decreases |frags|
  {
    if frags != [] {
      var next := ParseStep(r, frags[0]);
      if frags[0].Text? {
        var el := FullStrip(frags[0].text);
        if Classify(el).Some? {
          ApplyNoNewlines(r, Classify(el).value, el);
        }
      }
      ParseFromNoNewlines(next, frags[1..]);
    }
  }

  /** A parsed schedule renders as exactly one line per non-empty list: the
      cleaning in `full_strip` leaves no newline inside an item. */
  lemma ParsedRenderLines(frags: seq<Fragment>, indent: nat)
    ensures Count(HorariosToString(Parse(frags), indent), '\n') == Filled(Parse(frags))
  {
    ParseFromNoNewlines(Empty, frags);
    RenderLineCount(Parse(frags), indent);
  }

  /** Rendering a single Cátedra fragment gives one line that shows exactly
      the text left after stripping the label: the join undoes the split. */
  lemma RenderRoundTrip(t: string, indent: nat)
    requires FragmentLabel(Text(t)) == Some(Catedra)
    ensures HorariosToString(Parse([Text(t)]), indent)
            == Line(indent, "Cátedra: ", [LStrip(FullStrip(t), LabelChars(Catedra))])
  {
    var rest := LStrip(FullStrip(t), LabelChars(Catedra));
    var items := Split(rest, ItemSep);
    ParseSingleCatedra(t);
    RenderOnlyCatedra(items, indent);
    JoinSplit(rest, ItemSep);
    assert Join(items, ItemSep) == Join([rest], ItemSep);
  }

  lemma ParseSingleCatedra(t: string)
    requires FragmentLabel(Text(t)) == Some(Catedra)
    ensures Parse([Text(t)])
            == Empty.(catedra := Split(LStrip(FullStrip(t), LabelChars(Catedra)), ItemSep))
  {
    var fs := [Text(t)];
    assert fs[0] == Text(t) && fs[1..] == [];
    var h := ParseStep(Empty, Text(t));
    assert h == Apply(Empty, Catedra, FullStrip(t));
    assert ParseFrom(Empty, fs) == ParseFrom(h, []);
  }

  lemma RenderOnlyCatedra(items: seq<string>, indent: nat)
    requires |items| > 0
    ensures HorariosToString(Empty.(catedra := items), indent) == Line(indent, "Cátedra: ", items)
  {
    var l := Line(indent, "Cátedra: ", items);
    assert l + "" + "" + "" == l;
  }
}
