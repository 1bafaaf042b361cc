/** The older `parse_horario` of src/utils.py (copied in src/bot.py). It
    reads the weeks of a Control fragment as the second piece of the split on
    ", Semana: " without checking that there is one, so a Control fragment
    without that separator raises `IndexError`. `full_strip` and
    `horarios_to_string` are the same as in utils.py and are not repeated. */
module LegacySchedule {
  import opened Wrappers
  import opened PyStr
  import opened Schedule

  /** The `IndexError` of `controlsplit[1]`. */
  datatype IndexError = IndexError

  /** One iteration of the older loop: as the current one, except that a
      Control fragment must contain ", Semana: ". */
  function LegacyStep(r: Schedule, f: Fragment): Result<Schedule, IndexError>
  {
    match f
    case Markup => Ok(r)
    case Text(raw) =>
      var el := FullStrip(raw);
      if StartsWith(el, Label(Catedra)) then
        Ok(r.(catedra := Split(LStrip(el, LabelChars(Catedra)), ItemSep)))
      else if StartsWith(el, Label(Auxiliar)) then
        Ok(r.(auxiliar := Split(LStrip(el, LabelChars(Auxiliar)), ItemSep)))
      else if StartsWith(el, Label(Control)) then
        var controlsplit := Split(el, WeekSep);
        if |controlsplit| > 1 then
          Ok(r.(controlSlots := Split(LStrip(controlsplit[0], LabelChars(Control)), ItemSep),
                controlWeeks := Split(controlsplit[1], ItemSep)))
        else Err(IndexError)
      else Ok(r)
  }

  /** The older loop run from the partial result `r`; the first error ends it. */
  function LegacyParseFrom(r: Schedule, frags: seq<Fragment>): Result<Schedule, IndexError>
    decreases |frags|
  {
    if frags == [] then Ok(r)
    else
      match LegacyStep(r, frags[0])
      case Err(e) => Err(e)
      case Ok(next) => LegacyParseFrom(next, frags[1..])
  }

  /** What the older `parse_horario` returns or raises. */
  function LegacyParse(frags: seq<Fragment>): Result<Schedule, IndexError> {
    LegacyParseFrom(Empty, frags)
  }

  /** The older `parse_horario`: the same loop, raising on a Control fragment
      without weeks. */
  method LegacyParseHorario(horarios: seq<Fragment>) returns (result: Result<Schedule, IndexError>)
    ensures result == LegacyParse(horarios)
  {
    var acc := Empty;
    var i := 0;
    while i < |horarios|
      invariant 0 <= i <= |horarios|
      invariant LegacyParseFrom(acc, horarios[i..]) == LegacyParse(horarios)
    {
      var el := horarios[i];
      assert horarios[i..][1..] == horarios[i + 1..];
      i := i + 1;
      if el.Markup? {
        continue;
      }
      var text := FullStrip(el.text);
      if StartsWith(text, Label(Catedra)) {
        acc := acc.(catedra := Split(LStrip(text, LabelChars(Catedra)), ItemSep));
      } else if StartsWith(text, Label(Auxiliar)) {
        acc := acc.(auxiliar := Split(LStrip(text, LabelChars(Auxiliar)), ItemSep));
      } else if StartsWith(text, Label(Control)) {
        var controlsplit := Split(text, WeekSep);
        acc := acc.(controlSlots := Split(LStrip(controlsplit[0], LabelChars(Control)), ItemSep));
        if |controlsplit| <= 1 {
          return Err(IndexError);
        }
        acc := acc.(controlWeeks := Split(controlsplit[1], ItemSep));
      }
    }
    result := Ok(acc);
  }

  /** A fragment the older code cannot read: a Control text without ", Semana: ". */
  predicate MissingWeeks(f: Fragment) {
    f.Text? && FragmentLabel(f) == Some(Control) && Find(FullStrip(f.text), WeekSep).None?
  }

  /** One step of the older loop fails exactly on such a fragment, and
      otherwise does what the current loop does. */
  lemma LegacyStepAgrees(r: Schedule, f: Fragment)
    ensures LegacyStep(r, f).Err? <==> MissingWeeks(f)
    ensures LegacyStep(r, f).Ok? ==> LegacyStep(r, f).value == ParseStep(r, f)
  {
    if f.Text? {
      var el := FullStrip(f.text);
      match Classify(el)
      case None =>
        assert LegacyStep(r, f) == Ok(r);
      case Some(cat) =>
        if cat == Control {
          var controlsplit := Split(el, WeekSep);
          SplitFirst(el, WeekSep);
          assert !StartsWith(el, Label(Catedra)) && !StartsWith(el, Label(Auxiliar))
                 && StartsWith(el, Label(Control));
          if |controlsplit| > 1 {
            var slots := Split(LStrip(controlsplit[0], LabelChars(Control)), ItemSep);
            var weeks := Split(controlsplit[1], ItemSep);
            assert Apply(r, Control, el) == r.(controlSlots := slots, controlWeeks := weeks);
            assert LegacyStep(r, f) == Ok(Apply(r, Control, el));
          } else {
            assert LegacyStep(r, f) == Err(IndexError);
          }
        } else {
          assert LegacyStep(r, f) == Ok(Apply(r, cat, el));
        }
    }
  }

  /** The older `parse_horario` raises exactly when some fragment is a Control
      text without ", Semana: ", and otherwise agrees with the current one. */
  lemma {:induction false} LegacyParseFromAgrees(r: Schedule, frags: seq<Fragment>)
    ensures LegacyParseFrom(r, frags).Err? <==>
              exists k :: 0 <= k < |frags| && MissingWeeks(frags[k])
    ensures LegacyParseFrom(r, frags).Ok? ==> LegacyParseFrom(r, frags).value == ParseFrom(r, frags)
    decreases |frags|
  {
    if frags != [] {
      LegacyStepAgrees(r, frags[0]);
      if LegacyStep(r, frags[0]).Ok? {
        var rest := frags[1..];
        assert LegacyParseFrom(r, frags) == LegacyParseFrom(ParseStep(r, frags[0]), rest);
        assert ParseFrom(r, frags) == ParseFrom(ParseStep(r, frags[0]), rest);
        LegacyParseFromAgrees(ParseStep(r, frags[0]), rest);
        MissingWeeksTail(frags);
      }
    }
  }

  /** A sequence whose head can be read has an unreadable fragment exactly
      when its tail has one. */
  lemma MissingWeeksTail(frags: seq<Fragment>)
    requires frags != [] && !MissingWeeks(frags[0])
    ensures (exists k :: 0 <= k < |frags| && MissingWeeks(frags[k])) <==>
            (exists k :: 0 <= k < |frags[1..]| && MissingWeeks(frags[1..][k]))
  {
    var rest := frags[1..];
    if exists k :: 0 <= k < |rest| && MissingWeeks(rest[k]) {
      var k :| 0 <= k < |rest| && MissingWeeks(rest[k]);
      assert frags[k + 1] == rest[k];
    }
    if exists k :: 0 <= k < |frags| && MissingWeeks(frags[k]) {
      var k :| 0 <= k < |frags| && MissingWeeks(frags[k]);
      assert k > 0;
      assert rest[k - 1] == frags[k];
    }
  }

  lemma LegacyParseAgrees(frags: seq<Fragment>)
    ensures LegacyParse(frags).Err? <==> exists k :: 0 <= k < |frags| && MissingWeeks(frags[k])
    ensures LegacyParse(frags).Ok? ==> LegacyParse(frags).value == Parse(frags)
  {
    LegacyParseFromAgrees(Empty, frags);
  }
}
