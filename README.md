# catalogo-fcfm-bot: a verified model of the catalogue differ and the chat commands

The bot scrapes the FCFM course catalogue (U-Campus) every few minutes.
It compares the new snapshot with the one it accepted last time: courses
added, deleted or modified per department, and for a modified course its
name and its sections (teachers, seats, schedule). It then notifies every
Telegram chat subscribed to a changed department or course. Chats manage
their subscriptions with `/suscribir_depto`, `/suscribir_curso`,
`/desuscribir_depto`, `/desuscribir_curso`, `/start`, `/stop` and
`/suscripciones`.

This project models that core in Dafny and proves properties of it:

- `wrappers.dfy`: `Option` and `Result`.
- `lists.dfy` (module `Lists`): lists without duplicates, and the order a
  filter keeps.
- `pystr.dfy` (module `PyStr`): the Python `str` operations the code relies
  on (`startswith`, `find`, `split`, `join`, `lstrip`/`rstrip`/`strip` with a
  character set, `replace(c, "")`, `upper`, `" " * n`), with Python's meaning.
- `schedule.dfy` (module `Schedule`): `full_strip`, `parse_horario` and
  `horarios_to_string` of utils.py.
- `legacy_schedule.dfy` (module `LegacySchedule`): the older `parse_horario`
  of src/utils.py and src/bot.py, which raises `IndexError` on a Control line
  without weeks. It is related to the current one by proof.
- `catalog.dfy` (module `Catalog`): the snapshot data model. A department is
  an insertion-ordered dict, modelled as `order` plus `courses`.
- `differ.dfy` (module `Differ`): the per-section, per-course and
  per-department comparison of `check_catalog`. Each part is a loop method
  proved equal to a specification function, and the functions carry the
  properties (empty iff equal, patching the old value with the change gives
  the new one, no empty containers).
- `check.dfy` (module `CatalogCheck`): the `AllDeletedException` check of
  `scrape_catalog`, and `check_catalog` itself. The latter is a class with the
  module globals `current_data` and `new_data` as fields. Its loop over the
  departments includes the mass-deletion guard, the `KeyError` that aborts the
  cycle, and the acceptance of the new snapshot.
- `legacy_check.dfy` (module `LegacyCheck`): the older set-based
  `check_catalog` of src/bot.py, proved to agree with the current diff.
- `notify.dfy` (module `Notify`): which subscribed departments and courses a
  set of changes concerns in `notify_changes`, and which course messages are
  built for a chat.
- `commands.dfy` (module `Commands`): the chat settings as a class
  `ChatData`, with one method per command. Each command's loop is proved
  equal to a fold over its arguments, and the folds carry the properties.

The current `parse_horario` raises nothing; the older one raises
`IndexError` on a Control line without weeks, and `LegacySchedule` models
that. Total scrape failure is checked inside `scrape_catalog`
(bot.py:115-116) and modelled by `CatalogCheck.Scrape`.

## Model

| member | source | states |
|---|---|---|
| PyStr.Find | utils.py:23 | the index found is an occurrence of the separator and no earlier index is; `None` means there is none |
| PyStr.Split | utils.py:19 | there is always at least one piece |
| PyStr.JoinSplit | utils.py:32 | joining the pieces of a split with the same separator gives back the text |
| PyStr.SplitFirst | utils.py:23-25 | the first piece is the text up to the first separator; there is a second piece exactly when the separator occurs |
| PyStr.LStrip | utils.py:19 | removes exactly the leading run of characters from the set; what remains is a suffix that does not start with one |
| PyStr.Strip | utils.py:7 | the result neither starts nor ends with a character of the set |
| PyStr.StripSlice | utils.py:7 | `strip` returns a slice of its input, and everything cut off on either side is a stripped character |
| PyStr.Remove | utils.py:7 | `replace(c, "")` leaves no `c`, keeps every other character, counted, and keeps the kept characters in their order |
| PyStr.RemoveAppend | utils.py:7 | removing a character from a concatenation is removing it from each part: the kept characters stay in order |
| PyStr.Upper | commands.py:102 | `upper()` keeps the length, turns each of `a`–`z` into its capital and keeps every other character |
| PyStr.Spaces | utils.py:32 | `" " * n` is `n` spaces |
| Schedule.FullStrip | utils.py:6-7 | the result contains no newline or tab and has no leading or trailing space |
| Schedule.FullStripSlice | utils.py:6-7 | `full_strip(st)` is a slice of `st` without its newlines and tabs, and what it cuts at either end is spaces: interior spaces are kept |
| Schedule.FullStripIdempotent | utils.py:6-7 | applying `full_strip` twice is the same as once |
| Schedule.ParseHorario | utils.py:10-26 | the loop computes the fold `Parse` of the fragments |
| Schedule.ParseFromAppend | utils.py:14-25 | parsing a concatenation is parsing the second part from the result of the first |
| Schedule.UnlabelledKeep | utils.py:14-25 | fragments with no known label change nothing |
| Schedule.Classify | utils.py:18-22 | a fragment is classified by the label it starts with, Cátedra tried first, then Auxiliar, then Control; none when it starts with none of them |
| Schedule.NoLabelGivesEmpty | utils.py:10-26 | without a labelled fragment the result is the empty schedule |
| Schedule.MarkupSkipped | utils.py:15-16 | non-string fragments are skipped: parsing only the text fragments gives the same result |
| Schedule.OtherLabelsKeep | utils.py:18-25 | a category no fragment is labelled with keeps its fields |
| Schedule.UnseenCategoryEmpty | utils.py:11-13 | a category never seen stays empty, Control's weeks included |
| Schedule.LastWins | utils.py:18-25 | the last fragment of a category decides that category's fields |
| Schedule.SplitStripped | utils.py:19 | after `lstrip(label)`, the first item does not start with a label character |
| Schedule.ApplyShape | utils.py:18-24 | a labelled fragment always yields at least one item, and the first item does not start with a label character |
| Schedule.SeenCategoryShape | utils.py:14-25 | once a category is seen, its items keep that shape |
| Schedule.ControlFields | utils.py:22-25 | a Control line splits at the first ", Semana: " into slots and weeks; without it the weeks are empty |
| Schedule.HorariosToString | utils.py:29-39 | the rendering is empty exactly for the empty schedule |
| Schedule.LineShape | utils.py:32 | a rendered line starts with the indent and `<`, and ends with its only newline |
| Schedule.LineCount | utils.py:31-32 | a line present contributes exactly one newline, one absent none |
| Schedule.RenderLineCount | utils.py:29-39 | one line per non-empty field |
| Schedule.SplitNoNewline | utils.py:19 | splitting text without newlines gives pieces without newlines |
| Schedule.ApplyNoNewlines | utils.py:17-25 | a full-stripped fragment puts no newline in the schedule |
| Schedule.ParseFromNoNewlines | utils.py:14-25 | parsed schedules contain no newline |
| Schedule.ParsedRenderLines | utils.py:29-39 | rendering a parsed schedule gives one line per non-empty field |
| Schedule.ParseSingleCatedra | utils.py:18-19 | one Cátedra fragment sets only the Cátedra items, split after the label |
| Schedule.RenderOnlyCatedra | utils.py:29-32 | a schedule with only Cátedra items renders as that one line |
| Schedule.RenderRoundTrip | utils.py:29-32 | rendering the parse of one Cátedra fragment gives back its text after the label, on one line |
| LegacySchedule.LegacyParseHorario | src/utils.py:7-23 | the older loop computes `LegacyParse`, including the `IndexError` it raises |
| LegacySchedule.LegacyStepAgrees | src/utils.py:19-22 | a step fails exactly on a Control fragment without ", Semana: " and otherwise does what the current step does |
| LegacySchedule.LegacyParseFromAgrees | src/utils.py:11-22 | the older parse fails exactly when some fragment is such a Control fragment, and otherwise agrees with the current one |
| LegacySchedule.LegacyParseAgrees | src/bot.py:54-70 | the same, from the empty schedule |
| Catalog.Get | bot.py:129-130 | `get(d, {})`: the department, or an empty well-formed one |
| Differ.SectionDiff | bot.py:162-173 | the section mods are empty iff the sections are equal; each field is reported iff it differs, with the old value first; patching the old section with them gives the new one |
| Differ.ModifiedSections | bot.py:161-175 | exactly the common sections that differ, each with non-empty mods that patch it into the new section |
| Differ.SeccionesDiff | bot.py:154-185 | no section change iff the section dicts are equal; otherwise `added` is new ids minus old, `deleted` old minus new, `modified` is `ModifiedSections`, and no part is empty |
| Differ.SeccionesDiffKeys | bot.py:157-180 | old section ids minus the deleted plus the added are the new ids |
| Differ.SeccionesDiffPatch | bot.py:161-175 | every common section is patched into the new one |
| Differ.SeccionesDiffComplete | bot.py:154-185 | the section changes rebuild the new sections from the old ones |
| Differ.CourseDiff | bot.py:151-188 | the course mods are empty iff the courses are equal; the name is reported iff it differs, as (old, new); sections are reported iff they differ; the record is sparse |
| Differ.KeepOut | bot.py:144-145 | the filtered list holds exactly the ids not in the set, in the order of the input, without duplicates |
| Differ.KeepIn | bot.py:146 | the filtered list holds exactly the ids in the set, in the order of the input, without duplicates |
| Differ.KeepOutAppend | bot.py:144-145 | filtering a concatenation is filtering each part and concatenating: ids keep their relative order |
| Differ.KeepInAppend | bot.py:146 | the same for the `in` filter |
| Differ.AddedCourses | bot.py:144 | exactly the courses only the new data has, each once, in the new dict's order |
| Differ.DeletedCourses | bot.py:145 | exactly the courses only the old data has, each once, in the old dict's order |
| Differ.CommonCourses | bot.py:146 | exactly the courses both have, each once, in the old dict's order |
| Differ.ModifiedCourses | bot.py:147-188 | exactly the common courses that differ, each with non-empty, sparse mods |
| Differ.DeptDiff | bot.py:140-197 | a department's change record, when there is one, is sparse, and its `added`, `deleted` and `modified` are exactly `AddedCourses` (new-only ids in new order), `DeletedCourses` (old-only ids in old order) and `ModifiedCourses` |
| Differ.CoursePartition | bot.py:140-146 | added, deleted and common courses partition the courses of either side |
| Differ.DeptDiffNoneIff | bot.py:190-197 | a department gets no entry in `all_changes` iff its courses are unchanged |
| Differ.DeptDiffKeys | bot.py:140-146 | old courses minus the deleted plus the added are the new courses |
| Differ.DiffSection | bot.py:162-173 | the per-section comparison computes `SectionDiff` |
| Differ.DiffCommonSections | bot.py:160-175 | the loop over `inter_sec` computes `ModifiedSections` |
| Differ.DiffCourse | bot.py:151-188 | the per-course comparison computes `CourseDiff` |
| Differ.DiffCommonCourses | bot.py:147-188 | the loop over `inter` computes `ModifiedCourses` |
| Differ.DiffDepartment | bot.py:140-197 | the per-department comparison computes `DeptDiff` |
| CatalogCheck.Scrape | bot.py:115-116 | the scrape raises `AllDeletedException` iff there was data and no course was found; otherwise it returns the scraped snapshot |
| CatalogCheck.Guard | bot.py:131 | the guard fires only for a department that had at least 3 courses and kept none of them |
| CatalogCheck.Step | bot.py:128-197 | one department of the loop keeps the new snapshot well formed |
| CatalogCheck.Run | bot.py:128-197 | the loop keeps the new snapshot well formed |
| CatalogCheck.RunFailedStays | bot.py:214-218 | once a department raised, the rest of the loop does not run |
| CatalogCheck.StepSettles | bot.py:129-197 | one department fails iff it is neither guarded nor present on both sides, and otherwise is settled |
| CatalogCheck.RunSettled | bot.py:128-149 | the loop fails iff some department is neither guarded nor present on both sides; the failing one is such a department; otherwise every department is settled |
| CatalogCheck.CatalogData.CheckCatalog | bot.py:122-218 | `check_catalog` produces the outcome and the new `current_data` and `new_data` that `CheckSpec` gives |
| CatalogCheck.CheckSpec | bot.py:122-218 | an abort keeps `current_data`, and `AllDeletedException` also keeps `new_data`; a completed check makes both globals the same well-formed snapshot and notifies iff `all_changes` is non-empty |
| CatalogCheck.CheckAborts | bot.py:209-218 | the cycle aborts on mass deletion exactly when there was data and none was found, keeping both snapshots; any abort keeps `current_data`; it completes iff no department fails; a missing department is one of the listed ones and is neither guarded nor present on both sides |
| CatalogCheck.CheckAccepted | bot.py:131-204 | on completion both snapshots become the new one; a guarded department keeps its old courses; every other department is taken from the scrape; the skipped departments are exactly the guarded ones |
| CatalogCheck.CheckChanges | bot.py:190-201 | `all_changes` holds exactly the unguarded departments whose courses changed, each with its sparse `DeptDiff`; chats are notified iff it is non-empty |
| CatalogCheck.SelfCheckQuiet | bot.py:199-204 | checking a snapshot against itself reports no change, notifies nobody and keeps it |
| LegacyCheck.LegacyNotifiesIffChanged | src/bot.py:239-242 | the older check notifies iff the catalogue changed |
| LegacyCheck.LegacyKeys | src/bot.py:189-193 | old ids minus the deleted plus the added are the new ids |
| LegacyCheck.LegacyDiff | src/bot.py:189-232 | `added` holds exactly the new-only ids, `deleted` exactly the old-only ids, `modified` exactly the common courses that differ |
| LegacyCheck.LegacyAgreesWithCurrent | src/bot.py:189-232 | the set-based and the list-based diffs add, delete and modify the same courses, and report a change together |
| LegacyCheck.DiffCommonCourseSet | src/bot.py:194-232 | the loop over `inter` computes `ModifiedCourses` |
| LegacyCheck.LegacyCatalog.CheckCatalog | src/bot.py:183-244 | the older check returns `LegacyDiff`, notifies iff the data changed, and accepts the parsed data |
| Notify.DeptMatches | bot.py:234 | exactly the subscribed departments that have changes, in subscription order, without duplicates |
| Notify.CursoMatches | bot.py:235-238 | exactly the subscribed pairs whose course is added, deleted or modified, in subscription order |
| Notify.DeptMatchesAppend | bot.py:234 | matching a concatenation of subscriptions matches each part and concatenates, so messages follow subscription order |
| Notify.CursoMatchesAppend | bot.py:235-238 | the same for course subscriptions |
| Notify.CourseMessagesAsWritten | bot.py:249-269 | as written, a match gets a message iff its course was modified, and every message is headed "modified" |
| Notify.AsWrittenAppend | bot.py:249-269 | the messages for two runs of matches are those of the first followed by those of the second, so they keep the order of the matches |
| Notify.BuildCourseMessagesAsWritten | bot.py:249-269 | the loop over `curso_matches`, as written, computes `CourseMessagesAsWritten` |
| Notify.AddedCourseGetsNoMessage | bot.py:255-269 | a chat subscribed to a course that was just added is matched but gets no message |
| Notify.CourseMessages | bot.py:249-269 | corrected: one message per match, in order, with the heading that says how the course changed |
| Notify.ChatNotification | bot.py:229-273 | a chat is notified iff it is enabled and some subscribed department or course changed; the notification holds the department matches and one corrected message per course match, and is never empty |
| Notify.KindOfDiff | bot.py:255-263 | the heading is added iff only the new data has the course, deleted iff only the old does, modified iff both have it and it differs |
| Notify.KindOf | bot.py:255-263 | the heading found for a course says under which of added, deleted or modified its department's record lists it; none when it is not listed |
| Commands.SplitPair | commands.py:101 | an argument is a pair iff it splits on "-" into exactly two pieces, which join back into it |
| Commands.SplitPairOf | commands.py:101 | `d-c` with no other dash splits into `d` and `c` |
| Commands.RemoveFirst | commands.py:172 | `list.remove(x)` takes one `x` out and keeps a duplicate-free list duplicate-free and without `x` |
| Commands.RemoveFirstOrder | commands.py:172 | `list.remove(x)` cuts out the first occurrence of `x` and keeps the other elements in their order |
| Commands.SubscribeDeptoStepKeeps | commands.py:50-59 | one argument keeps the subscribe invariant, is counted once, and leaves a `DEPTS` id subscribed |
| Commands.SubscribeDeptoFromKeeps | commands.py:49-59 | the whole loop keeps the invariant, counts each argument once and leaves every `DEPTS` argument subscribed |
| Commands.SubscribeDeptoCorrect | commands.py:43-59 | each argument is reported once; the new list is the old one followed by the added ids; it has no duplicates; only new `DEPTS` ids are added; failed ones are not in `DEPTS`; every `DEPTS` argument ends subscribed |
| Commands.RepeatedDeptoIsAlready | commands.py:53-57 | a `DEPTS` id given twice in one command is reported as already subscribed |
| Commands.SubscribeDeptoStep | commands.py:50-59 | one argument never unsubscribes anything, leaves a `DEPTS` id subscribed and leaves the list alone for any other argument |
| Commands.SubscribeCursoStepKeeps | commands.py:100-120 | one argument keeps the invariant and only grows the list; after a `KeyError` nothing changes |
| Commands.SubscribeCursoAppendKeeps | commands.py:110-116 | appending a new pair keeps the invariant whichever way the lookup goes |
| Commands.SubscribeCursoStep | commands.py:100-120 | after a `KeyError` nothing changes; one argument never unsubscribes anything; a new `KeyError` names a `DEPTS` department missing from `current_data` |
| Commands.AppendedListKeeps | commands.py:111 | appending a new uppercased pair keeps the list duplicate-free and extends it |
| Commands.ErrorSticks | commands.py:112 | after the `KeyError` no further argument is processed |
| Commands.SubscribeCursoFromKeeps | commands.py:99-120 | the whole loop keeps the invariant, counts each argument once unless it raised, and subscribes every pair for a `DEPTS` department |
| Commands.SubscribeCursoCorrect | commands.py:91-120 | the old list stays a prefix; the list gains exactly the added and unknown pairs and has no duplicates; new course ids are uppercased; added pairs name known courses and unknown pairs do not; a `KeyError` names a `DEPTS` department missing from `current_data`, raised after its pair was appended; every pair the list gains is the pair some argument names |
| Commands.SubscribeCursoFromNamed | commands.py:99-120 | over the loop, every pair appended or reported comes from an argument read so far, and every unparseable report is such an argument |
| Commands.SubscribeCursoNamed | commands.py:99-120 | `/suscribir_curso` appends and reports (added, already, unknown, bad department) only pairs its arguments name, and reports as unparseable only its own arguments |
| Commands.UnsubscribeDeptoStepKeeps | commands.py:169-176 | one argument keeps the invariant, only shrinks the list, and leaves a `DEPTS` id unsubscribed |
| Commands.UnsubscribeDeptoFromKeeps | commands.py:168-176 | the whole loop keeps the invariant, counts each argument once and unsubscribes every `DEPTS` argument unless it raised |
| Commands.UnsubErrorSticks | commands.py:170 | after the `KeyError` no further argument is processed |
| Commands.UnsubNoErrorWithout | commands.py:169-170 | without a `DEPTS` argument, or with a list to read, nothing raises |
| Commands.UnsubscribeDeptoStep | commands.py:169-176 | one argument never adds a subscription, and raises `KeyError` iff it is a `DEPTS` id and the chat has no department list (or an earlier one raised) |
| Commands.UnsubscribeDeptoCorrect | commands.py:162-176 | raises `KeyError` iff the chat never had a department list and some argument is in `DEPTS`; a department stays subscribed iff it was and was not deleted; deleted ids are removed once each; otherwise each argument is reported once and no `DEPTS` argument stays subscribed |
| Commands.SubscribeThenUnsubscribeDepto | commands.py:162-176 | unsubscribing a department right after subscribing it raises nothing, deletes it and keeps the other subscriptions |
| Commands.UnsubscribeCursoStepKeeps | commands.py:215-230 | one argument keeps the invariant, only shrinks the list and leaves its pair unsubscribed |
| Commands.UnsubscribeCursoFromKeeps | commands.py:214-230 | the whole loop keeps the invariant, counts each argument once and unsubscribes every pair it names |
| Commands.UnsubscribeCursoCorrect | commands.py:207-230 | one report per argument; a pair stays iff it was subscribed and was not deleted; deleted pairs are removed once each; every deleted pair, and so every pair that leaves the list, is one some argument names; no named pair for a `DEPTS` department remains |
| Commands.UnsubscribeCursoFromNamed | commands.py:214-230 | over the loop, every pair reported deleted, not subscribed or in a bad department comes from an argument read so far, and every unparseable report is such an argument |
| Commands.UnsubscribeCursoStep | commands.py:215-230 | one argument never adds a subscription, and one that is not a pair leaves the list alone |
| Commands.LowercaseUnsubscribeMisses | commands.py:216-226 | as written, after `/suscribir_curso d-c` with a lower-case course, `/desuscribir_curso d-c` reports "not subscribed" and the subscription stays |
| Commands.SubscribeThenUnsubscribeCurso | commands.py:216-226 | corrected (course uppercased): unsubscribing with the same argument removes exactly what subscribing added and keeps the rest |
| Commands.ChatData.Start | commands.py:15-30 | `/start` turns notifications on and says whether they already were; subscriptions are untouched |
| Commands.ChatData.Stop | commands.py:33-35 | `/stop` turns notifications off and keeps the subscriptions |
| Commands.ChatData.Subscriptions | commands.py:276-300 | `/suscripciones` lists every stored department and pair, as many as are stored and in the stored order, with absent lists shown empty |
| Commands.ChatData.SubscribeDepto | commands.py:43-88 | no arguments gives the usage reply; otherwise the list and the report are those of `SubscribeDeptoSpec`, the reminder is sent iff something was added while notifications are off, and every `DEPTS` argument is then listed |
| Commands.ChatData.SubscribeCurso | commands.py:91-159 | no arguments gives the usage reply; otherwise the list is that of `SubscribeCursoSpec`, and the reply is its `KeyError` or its report, with the reminder iff a pair was added or unknown while notifications are off |
| Commands.ChatData.UnsubscribeDepto | commands.py:162-204 | no arguments gives the usage reply; otherwise the list is that of `UnsubscribeDeptoSpec` and the reply is its `KeyError` or its report |
| Commands.ChatData.UnsubscribeCurso | commands.py:207-261 | no arguments gives the usage reply; otherwise the list and the report are those of `UnsubscribeCursoSpec` as written |

## Left out

- Network access, HTML parsing (BeautifulSoup) and the U-Campus page layout. The scraped snapshot is an input, and a schedule cell is a sequence of fragments: text or other markup.
- Persistence: `save_catalog`, the JSON and pickle files, and loading at start-up.
- Telegram delivery: `try_msg`, `notify_thread`, the threads started per chat, `Unauthorized`/`BadRequest` handling, and the admin messages.
- Clocks and logging: `last_check_time`, the job scheduler and all `logger` calls.
- Message texts: `changes_to_string`, `added_curso_string`, `deleted_curso_string`, `modified_curso_string` and the command replies. A reply is modelled by the lists of arguments it reports.
- `DEPTS` (constants.py) is a parameter: a sequence where the code iterates over it, a set where it tests membership.
- The `except Exception` handler of `check_catalog` (bot.py:214-218) is modelled only for the `KeyError` that the lookup of a department missing from either snapshot raises. Two other raise points reach it and are not modelled: `try_msg` re-raises the Telegram error after its last attempt (utils.py:50-52), which can happen in the guard's admin message (bot.py:135-137); and `changes_to_string` runs in `notify_changes` outside the per-chat `try` (bot.py:224-226). Either one skips `data.current_data = data.new_data` (bot.py:204), so that check is not accepted; the model always accepts a check that completes its department loop.
- `notify_changes` writes default values into each chat's data with `setdefault`. That write is not modelled; absent lists read as empty, which matches what `.get` returns in the commands.
- `/deptos` and the admin commands only format constant text and are not modelled.
- PyStr.Upper: uppercases ASCII letters only, not the full Unicode mapping of Python's `str.upper`.
- Schedule.FullStrip: its own contract states only what the result lacks (newlines, tabs, edge spaces); that the result is the cleaned text with only edge spaces cut is stated by `Schedule.FullStripSlice`, kept off the function's contract because every parsing proof unfolds `FullStrip` and the extra existential makes them far more expensive to check.
- Commands.RemoveFirst: its own contract states the multiset and duplicate facts; that the other elements keep their order is stated by `Commands.RemoveFirstOrder`, kept off the function's contract for the same reason in the unsubscribe proofs.
- Differ.ModifiedCourses: a map, so the iteration order of the `modified` dict is not modelled.
- Notify.ChatNotification uses the corrected `Notify.CourseMessages`. The code as written is `Notify.CourseMessagesAsWritten` (see Findings).
- Commands.ChatData.UnsubscribeCurso follows the code as written (no uppercasing). The corrected behaviour is stated by `Commands.SubscribeThenUnsubscribeCurso` (see Findings).
- The copies of `full_strip` and `horarios_to_string` in src/utils.py and src/bot.py are identical to those in utils.py and are modelled once, in `Schedule`.

## Findings

| source | as written | input that shows it | evidently intended | confidence | as-written member | corrected member |
|---|---|---|---|---|---|---|
| bot.py:255-269 | the course message is appended only inside the `modified` branch, so a matched course that was added or deleted gets no message | `all_changes == {"5": {"added": ["CC3001"]}}`, chat enabled, subscribed only to `("5", "CC3001")`: the course is matched and a notification thread starts with no message at all | one message per matched course, headed "Curso añadido", "Curso eliminado" or "Curso modificado" | high, not executed | Notify.AddedCourseGetsNoMessage | Notify.CourseMessages |
| commands.py:216-226 | `/desuscribir_curso` does not uppercase the course id while `/suscribir_curso` does (commands.py:102) | `/suscribir_curso 5-cc3001` stores `("5", "CC3001")`; `/desuscribir_curso 5-cc3001` then looks for `("5", "cc3001")`, reports it as not subscribed and keeps the subscription | the same argument that subscribes a course unsubscribes it | medium, not executed | Commands.LowercaseUnsubscribeMisses | Commands.SubscribeThenUnsubscribeCurso |
