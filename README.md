# SIGE school administration — a Dafny model of its core

SIGE is a school administration web application. It handles classes ("turmas"), subjects ("disciplinas"), students, teachers and managers ("gestores"), each working through a role-gated dashboard. This project models the application's decision logic in Dafny 4.11 and proves properties of it:

- **the weekly timetable editor** (`grade_horaria`):
  - the slot table of each shift and the empty grid;
  - the map of teachers already busy in other classes;
  - in each cell, the subjects whose teacher is free there;
  - the grid rebuilt from a submitted form, and the table shown on the page;
- **grade entry** (`lancar_nota`): the submitted bimester grades merged into the stored records, and the list of entries that could not be read;
- **the grade average** (`Nota.media`) and the student dashboard counters (`painel_aluno`);
- **the year filter** of the administration dashboard and the class list; **class and subject creation** with their error cases;
- **login routing**, the permission tests and the display name of a user;
- **the month calendar** of the dashboards;
- **the `get_item` template filter**;
- **the form validators**:
  - the CEP (postal code) format;
  - the password pairs;
  - e-mail and CPF uniqueness;
  - the required flags of the manager form;
  - what saving a manager writes into its login account.

Modules, one per file:

| file | module | models |
|---|---|---|
| `wrappers.dfy` | `Wrappers` | `Option`, `Result` |
| `text.dfy` | `Text` | the parts of Python's `str` the application uses: `strip`, `lower`, `replace`, `isdigit`, `int(...)`, `str(...)` |
| `models.dfy` | `Models` | the records, the shift choices and `Nota.media` |
| `get_item.dfy` | `GetItem` | the `get_item` template filter |
| `timetable.dfy` | `Timetable` | `grade_horaria` and `HORARIOS` |
| `access.dfy` | `Access` | `login_view`, `is_super_ou_gestor`, the `usuarios` and `editar_gestor` permission tests, `get_nome_exibicao` |
| `admin.dfy` | `Admin` | the year filter, `cadastrar_turma`, the `editar_turma` duplicate test, `cadastrar_disciplina_para_turma` |
| `grades.dfy` | `Grades` | `lancar_nota` and the `painel_aluno` counters |
| `calendar.dfy` | `Calendar` | `gerar_calendario` and the month matrix it reads |
| `forms.dfy` | `Forms` | the validators of `core/forms.py`, plus `GestorForm.__init__` and `GestorForm.save` |

The database is modelled as values: sequences and maps passed in and returned. Several outside inputs are parameters:

- the clock: the current year, today's day of the month, and the month's first weekday and length;
- float parsing (`float(...)`), a partial function `string -> Option<real>`;
- the password services (`check_password`, `validate_password`, `set_password`): a predicate or a hash function.

The imperative parts of the source keep their form:

- loops become methods with loop invariants: the occupancy scan, the grid rebuild, the table, grade entry, the counters, the year insertion and the calendar;
- the manager form and the login account it updates are classes.

The timetable editor is meant to keep a teacher from being booked in two classes at once. The code does this only by leaving busy teachers' subjects out of the choices offered in each cell. A submitted grid is saved as it is, with no conflict check. The model follows the code, and `Timetable.GradeHoraria` states this on both paths.

## Model

| member | source | states |
|---|---|---|
| `Text.StripSpec` | core/views.py:819 | what `strip()` leaves has no whitespace at either end, and a value with none there is returned unchanged |
| `Text.Strip` | core/views.py:819 | `str.strip()`: no longer than its input, with no whitespace left at either end; `Text.StripSlice` and `Text.StripSpec` state which slice it keeps |
| `Text.StripSlice` | core/views.py:296 | `strip()` leaves the slice between a leading and a trailing run of whitespace, beginning and ending with a non-whitespace character |
| `Text.StripEmpty` | core/views.py:296-297 | `strip()` gives "" exactly when the value is all whitespace |
| `Text.ParseIntToString` | core/templatetags/get_item.py:15-18 | `int(str(i)) == i` for every integer |
| `Text.ParseInt` | core/templatetags/get_item.py:16 | `int(s)`: the decimal value once surrounding whitespace is stripped; a number read starts with a digit or a sign; `Text.ParseIntExactly` states what it accepts and reads |
| `Text.ParseIntExactly` | core/templatetags/get_item.py:16 | `int(s)` succeeds exactly on a stripped string of digits, optionally after one sign, and a signed string reads as the signed value of its digits |
| `Text.ParseIntRefusesMalformed` | core/templatetags/get_item.py:16-20 | "1-2", "1 2", "+" and "--1" are refused |
| `Text.ParseIntReadsSigned` | core/templatetags/get_item.py:16 | " -007 " reads as -7 and "+5" as 5 |
| `Text.IntToString` | core/templatetags/get_item.py:23 | `str(i)`: non-empty, a leading minus exactly for negatives, decimal digits otherwise; `Text.ParseIntToString` proves `int` reads it back |
| `Text.ParseIntRejectsNonNumeric` | core/templatetags/get_item.py:15-20 | a string holding any character other than whitespace, a sign or a digit makes `int` fail |
| `Text.Lower` | core/views.py:1047 | same length; each character lower-cased |
| `Text.ReplaceChar` | core/views.py:1048-1049 | same length; each occurrence of the character replaced, all else kept |
| `Text.RemoveChar` | core/forms.py:391 | no occurrence of the character is left, every other character is kept, and the result is no longer |
| `Text.RemoveCharCount` | core/forms.py:391 | the length drops by the number of occurrences removed, and every other character keeps its count |
| `Text.RemoveCharConcat` | core/forms.py:391 | removal distributes over concatenation, so the kept characters stay in order |
| `Models.Recorded` | core/models.py:118 | the grades entered, without the `None`s; empty exactly when none was entered |
| `Models.Media` | core/models.py:117-119 | no average exactly when all four grades are `None` |
| `Models.MeanOfRecorded` | core/models.py:118-119 | the average is the sum of the entered grades divided by their count, and `None` when there are none |
| `Models.MeanIgnoresMissing` | core/models.py:118-119 | a missing grade inserted anywhere changes neither the sum nor the count |
| `Models.RecordedIgnoresMissing` | core/models.py:118 | dropping `None` ignores a missing grade wherever it stands |
| `Models.RecordedConcat` | core/models.py:118 | recorded grades of a concatenation are the concatenation of the recorded grades |
| `Models.CountIsLength` | core/models.py:119 | `len(notas)` is the number of grades entered |
| `Models.MeanWithinBounds` | core/models.py:118-119 | bounds on every entered grade also bound the average |
| `Models.MediaBetweenMinAndMax` | core/models.py:118-119 | the average lies between the lowest and the highest entered grade |
| `Models.MediaOfSingleGrade` | core/models.py:118-119 | with one grade entered, the average is that grade |
| `GetItem.Get` | core/templatetags/get_item.py:6-23 | a `None`/empty dictionary gives `None`; a key present as given wins; otherwise a value is found exactly when `int(key)` or `str(key)` is present |
| `GetItem.StringKeyFallsBackToInt` | core/templatetags/get_item.py:15-18 | an absent string key such as "3" falls back to the integer key 3 |
| `GetItem.IntKeyFallsBackToString` | core/templatetags/get_item.py:15-23 | an absent integer key falls back to its string, and otherwise gives `None` |
| `GetItem.NonNumericKeyIsMissing` | core/templatetags/get_item.py:19-23 | a non-numeric key does not raise; it ends with its own string lookup, so an absent one gives `None` |
| `GetItem.LookupOfDigitString` | core/templatetags/get_item.py:15-18 | for every integer n, the string rendered for n finds the value stored under n |
| `Timetable.ShiftChoicesHaveSlots` | core/models.py:7-11 | the shift keys are exactly the slot table's keys; every choice, by key or label, normalises to its key |
| `Timetable.ShiftKey` | core/views.py:1046-1050 | same length; each character lower-cased, with 'ã' and 'á' turned into 'a' |
| `Timetable.ShiftKeyIdempotent` | core/views.py:1046-1050 | normalising a shift twice equals normalising it once |
| `Timetable.SlotsFor` | core/views.py:1052-1056 | a known shift gets its slot table; an unknown one gets the single empty slot, so there is always at least one slot |
| `Timetable.EmptyGrid` | core/views.py:1059 | one list per weekday, with one "" per slot |
| `Timetable.InitGrid` | core/views.py:1058-1060 | a stored grid is kept; an empty one is replaced by the empty grid |
| `Timetable.FindSubject` | core/views.py:1078-1081 | the found subject has that name and class; `None` means no subject has both |
| `Timetable.ListMarksSpec` | core/views.py:1073-1088 | a weekday's list marks teacher p at slot i exactly when cell i is non-empty and names a subject of that class taught by p |
| `Timetable.DayMarksSpec` | core/views.py:1072-1088 | one grid's marks are those of its weekdays' lists |
| `Timetable.AllMarksSpec` | core/views.py:1069-1088 | the marks of the other classes' grids are exactly the occupied positions |
| `Timetable.BuildOccupancy` | core/views.py:1067-1088 | teacher p is busy at (day, slot) exactly when some other class's grid puts one of p's subjects there; no teacher has an empty set |
| `Timetable.MarkGrid` | core/views.py:1072-1088 | scanning one grid adds exactly that grid's marks |
| `Timetable.MarkList` | core/views.py:1074-1088 | scanning one weekday adds exactly that list's marks |
| `Timetable.PairsAreOccupancy` | core/views.py:1067-1088 | occupancy holding exactly the scanned marks answers "busy" exactly for occupied positions |
| `Timetable.Available` | core/views.py:1127-1136 | a subject is offered exactly when it is the class's and its teacher is not busy at that position |
| `Timetable.AvailableIsFree` | core/views.py:1127-1136 | the offered subjects are those whose teacher teaches no other class at that position |
| `Timetable.AvailableSubjects` | core/views.py:1127-1136 | the loop builds the filtered list, in order |
| `Timetable.BuildRows` | core/views.py:1112-1144 | one row per slot, with its index and time; one column per weekday, with the cell value and the offered subjects |
| `Timetable.SubmittedGrid` | core/views.py:1094-1101 | the five weekdays, one entry per slot, each the submitted value of its `dia_i` field or "" |
| `Timetable.AppendSlot` | core/views.py:1097-1100 | one pass of the inner loop extends every weekday by its submitted value |
| `Timetable.GridOf` | core/views.py:1041 | a grid is found exactly when the class has a stored one, and it is that one |
| `Timetable.SaveGrid` | core/views.py:1102-1103 | the saved grid is stored for the class and at most one record is added; `Timetable.SaveGridSpec` states that no other class changes |
| `Timetable.SaveGridLookup` | core/views.py:1102-1103 | after saving, the class's grid is the saved one and every other class's is unchanged |
| `Timetable.SaveGridKeepsOthers` | core/views.py:1102-1103 | records of other classes are neither added nor lost |
| `Timetable.SaveGridUnique` | core/views.py:1041 | one grid per class stays one grid per class |
| `Timetable.SaveGridSpec` | core/views.py:1102-1103 | after saving, the class has exactly the saved grid, other classes keep their grids and records, and each class still has one grid |
| `Timetable.ClassSubjects` | core/views.py:1062 | exactly the subjects of that class |
| `Timetable.GradeHoraria` | core/views.py:1039-1151 | other classes' grids stay unchanged; a submission redirects and stores the submitted grid as it is; a page view initialises an empty grid and offers in every cell exactly the class's subjects with a free teacher |
| `Access.IsSuperOrGestor` | core/views.py:75-76 | the administration gate admits exactly those routed to it at login plus every manager, including one who is also a teacher or student |
| `Access.RoleRoute` | core/views.py:15-22 | superuser to the administration dashboard, then teacher, student, and a manager with neither |
| `Access.RoleRouteAdmitted` | core/views.py:75-76 | the chosen dashboard admits the user, and there is none exactly when no dashboard would |
| `Access.LoginView` | core/views.py:14-40 | a logged-in user with a role is redirected at once; otherwise a page view shows the login page, and a valid form logs its user in and redirects by that user's role; only a valid form changes the session; a redirect goes to a dashboard that admits the session's user |
| `Access.LoginReachesDashboard` | core/views.py:24-36 | a successful login of a user with a role ends on a dashboard that admits them |
| `Access.PodeVerGestores` | core/views.py:131-137 | managers are visible exactly to superusers, directors and vice-directors |
| `Access.PodeVerGestoresIsAdmin` | core/views.py:75-76 | whoever sees managers passes the admin gate; a secretary or coordinator passes it but does not see them |
| `Access.CanEditGestor` | core/views.py:438-441 | a superuser may edit any manager; a manager who is not a superuser exactly their own record; anyone else nothing |
| `Access.NomeExibicao` | core/views.py:285-293 | the manager's, teacher's or student's full name, in that order of precedence |
| `Access.NomeExibicaoWithoutProfile` | core/views.py:295-301 | without a profile: the stripped "first last" when it is not blank, else the e-mail; the e-mail exactly when both names are blank (or the joined names are the e-mail); otherwise a non-empty name with no surrounding whitespace |
| `Access.NomeExibicaoIsName` | core/views.py:296-298 | the name shown is a slice of "first last" with only whitespace cut off on either side |
| `Admin.FilterYear` | core/views.py:96-100 | `int(ano)` when the parameter is given, non-empty and numeric, else the current year; `Admin.FilterYearOfLink` states its cases |
| `Admin.FilterYearOfLink` | core/views.py:96-100 | a year rendered in a link reads back as itself; a missing, empty or non-numeric value gives the current year |
| `Admin.YearFilter` | core/views.py:88-105 | the list stays strictly descending, holds the filter year, gains only that year (or the current year when there are no classes), and is unchanged when the year was already there |
| `Admin.InsertDescending` | core/views.py:103-105 | inserting at the found position keeps the list strictly descending and adds just that year |
| `Admin.DescendingUnique` | core/views.py:105 | two strictly descending lists with the same years are equal, so sorting again gives the same list |
| `Admin.AnosOpcoes` | core/views.py:699 | years from 2010 to next year, ascending, each once |
| `Admin.CadastrarTurma` | core/views.py:701-722 | each error exactly in its case (a year `int` rejects, outside 2010 to next year, a duplicate name and year); on success the class is added with the parsed year |
| `Admin.CadastrarTurmaKeepsUnique` | core/views.py:714-721 | creation keeps class name and year unique |
| `Admin.EditConflict` | core/views.py:749 | a conflict is always a duplicate for the creation check; a duplicate that is no conflict belongs to the class edited |
| `Admin.EditUnchangedNoConflict` | core/views.py:749-750 | re-saving a class unchanged never conflicts with itself |
| `Admin.CadastrarDisciplina` | core/views.py:924-942 | each error exactly in its case and in the source's order (blank fields, a non-numeric teacher id, an unknown teacher, a duplicate name in the class); otherwise the subject is added |
| `Admin.CadastrarDisciplinaKeepsUnique` | core/views.py:933-940 | creation keeps subject names unique within each class |
| `Grades.SetBimestre` | core/views.py:830 | sets the i-th grade and leaves the other three, the student and the subject alone |
| `Grades.Sheet` | core/views.py:817-819 | the four stripped field values of a student |
| `Grades.MergedGrade` | core/views.py:819-830 | one bimester: a blank or unreadable entry keeps the recorded grade, a readable one replaces it; `Grades.MergedSpec` states it per bimester |
| `Grades.Merged` | core/views.py:817-830 | same student and subject, and no entered grade becomes missing; `Grades.MergedSpec` and `Grades.MergedIdempotent` state its properties |
| `Grades.MergedSpec` | core/views.py:817-830 | each bimester: blank keeps the old grade, an unreadable value keeps it, a readable one replaces it |
| `Grades.MergedIdempotent` | core/views.py:817-830 | submitting the same sheet twice gives what submitting it once gives |
| `Grades.MergedKeepsRecorded` | core/views.py:821-830 | a submission never erases an entered grade, and the count of grades never drops |
| `Grades.CountOfFour` | core/views.py:871-878 | the grade count is the number of the four fields that are set |
| `Grades.InvalidsUpToSpec` | core/views.py:821-828 | an error is reported exactly for a non-blank entry that does not parse |
| `Grades.AllInvalidsAppend` | core/views.py:811-828 | the errors come student by student, in order |
| `Grades.MergeStudent` | core/views.py:817-831 | the loop over the four bimesters yields the merged record and the student's errors |
| `Grades.LancarNotas` | core/views.py:810-832 | each listed student's record becomes its merged record, created when missing; every other record is unchanged; the errors are reported in order |
| `Grades.UpdatedKeepsAndSettles` | core/views.py:811-832 | a stored record loses no grade, and a second submission changes nothing |
| `Grades.FirstNota` | core/views.py:867 | the first record of that student and subject (no earlier one matches), or `None` when there is none |
| `Grades.Counters` | core/views.py:864-883 | four possible grades per subject, the count of entered grades, one (subject, record) pair per subject |
| `Grades.LancadasBounds` | core/views.py:864-878 | at most four per subject, with equality exactly when every subject has all four |
| `Grades.ContributionBounds` | core/views.py:869-878 | a subject counts at most 4 grades; exactly 4 when complete; 0 exactly when there is no record or no grade |
| `Calendar.Render` | core/views.py:61-67 | one cell per day number, in order: "empty" for 0, "today" for today's number |
| `Calendar.GerarCalendario` | core/views.py:53-69 | the double loop yields the cells of the weeks, joined in order |
| `Calendar.EmptyIsNeverToday` | core/views.py:64-66 | no cell is both empty and today |
| `Calendar.FlattenWeeks` | core/views.py:58 | the weeks of the month matrix, joined, are the month's positions in order |
| `Calendar.TodayMarkedOnce` | core/views.py:58-67 | on a real month every day has a cell; a cell is empty exactly outside the month, and exactly one cell, at today's position, is today |
| `Forms.CleanCep` | core/forms.py:389-396 | a valid CEP is returned as typed; an invalid one gives the CEP error |
| `Forms.CepFormatsAccepted` | core/forms.py:391-393 | eight digits are valid, with or without the dash |
| `Forms.CepIgnoresDashes` | core/forms.py:391 | inserting a dash anywhere never changes the verdict |
| `Forms.CepRejectsForeignChar` | core/forms.py:393-394 | any character other than a digit or a dash makes the CEP invalid |
| `Forms.CepAcceptedExactly` | core/forms.py:391-396 | a CEP is accepted exactly when it holds only digits and dashes and eight characters remain once the dashes are left out |
| `Forms.GestorClean` | core/forms.py:402-421 | both passwords blank pass; exactly one blank is incomplete; two different ones mismatch; a rejected password reports the validator's message |
| `Forms.GestorCleanAccepts` | core/forms.py:408-419 | the manager form passes exactly when nothing was typed, or the same password was typed twice and passes the rules |
| `Forms.EditarPerfilClean` | core/forms.py:201-223 | with all three password fields blank the profile form passes |
| `Forms.EditarPerfilOrder` | core/forms.py:208-221 | each error exactly when the earlier checks pass and this one fails; passes exactly when nothing was typed, or the current password is right and the new one agrees with its confirmation |
| `Forms.PasswordsMismatch` | core/forms.py:88-142 | the teacher form (`confirmar_senha`) and the student form (`password_confirm`) flag a mismatch exactly when both passwords are filled and differ, with the mismatch message on that field |
| `Forms.MismatchAgreesWithGestor` | core/forms.py:139-140 | the teacher and student forms flag exactly the manager form's mismatches, and let through a pair with one side blank that the manager form rejects |
| `Forms.Taken` | core/forms.py:366-371 | true exactly when some record other than the excluded one has the value in the given field; used for e-mails and CPFs alike |
| `Forms.GestorCleanEmail` | core/forms.py:363-374 | a free e-mail is returned unchanged; a taken one gets the "in use" error |
| `Forms.GestorCleanCpf` | core/forms.py:376-387 | a free CPF is returned unchanged; a taken one gets the "already registered" error |
| `Forms.UniquenessChecks` | core/forms.py:363-387 | a new manager is rejected exactly for a value somebody has; an edit, exactly for a value some other record has |
| `Forms.ResavingOwnValuesPasses` | core/forms.py:368-382 | editing a manager and keeping their own e-mail and CPF passes |
| `Forms.ProfessorCleanEmail` | core/forms.py:82-86 | a new teacher's e-mail is returned unchanged, or rejected as already registered |
| `Forms.AlunoCleanCpf` | core/forms.py:126-132 | a new student's CPF is returned unchanged, or rejected as already registered |
| `Forms.PerfilCleanEmail` | core/forms.py:193-199 | the profile's e-mail is returned unchanged, or rejected as in use |
| `Forms.RegistrationChecks` | core/forms.py:82-132 | the registration forms reject exactly a value that exists; the profile form rejects exactly an e-mail another user has |
| `Forms.GestorForm.constructor` | core/forms.py:336-357 | every field is required except the photo, and the passwords only on creation; an edit pre-fills the user's e-mail |
| `Forms.GestorForm.Save` | core/forms.py:427-445 | fails exactly when the manager has no account; otherwise the account's username and e-mail become the submitted e-mail, the password changes only when one was typed, and the session is refreshed exactly on a committed save with a request and a new password |

## Left out

- The database and its queries (`filter`, `get_or_create`, `save`, `delete`, cascades, ordering by name): records are sequences and maps passed in and returned. `unique_together` on grades is the key of the grade map.
- HTTP: requests, messages, `render`, `redirect` and templates. Results are a route tag, an error value or the data handed to the page.
- `authenticate`, `login`, `check_password`, `set_password`, `validate_password` and `update_session_auth_hash` are not part of this model beyond a parameter each. `LoginForm.clean` is the `Submit` outcome of `Access.LoginView`: the authenticated user, or none.
- Profile photos and `get_foto_perfil` touch file storage. They are not modelled.
- The clock and `calendar.monthcalendar`:
  - the current year and today's day of the month are parameters;
  - the month matrix is given by the first weekday and the number of days (`Calendar.MonthCalendar`), not computed from a date;
  - `gerar_calendario` reads the clock once, and takes the year, the month and the day from that one reading. The caller of `Calendar.GerarCalendario` must pass a day and a month matrix that come from the same date.
- `float(...)` and IEEE arithmetic. Parsing is a parameter, and grades and averages are `real`.
- The overall average in `painel_aluno` (core/views.py:886-891). It adds the bound method `nota.media` without calling it, so it raises as soon as a student has a grade record. It is not modelled as an average.
- The number parsing and text functions stop at what Dafny can model character by character:
  - `int(...)` accepts ASCII digits only. Underscores and non-ASCII digits are out.
  - `str.strip` removes the whitespace Python knows below U+0100. Wider Unicode spaces remain.
  - `str.lower` lowers ASCII and Latin-1 letters only.
  - `isdigit` means ASCII digits.
- `Timetable.GradeHoraria`: stored grid values other than a list of strings (JSON `null`, numbers) are not modelled. That covers the `isinstance` test and the `or ""`.
- Repeated form fields are not modelled. A submitted form is one value per field name, the last one.
- The subject lookup of the occupancy scan would raise if two subjects of one class shared a name, and `editar_disciplina` does not prevent that. The timetable assumes unique names (`UniqueSubjects`) and `Admin.CadastrarDisciplinaKeepsUnique` shows that creation keeps them unique.
- `cadastrar_turma` with `nome` or `turno` missing from the form. The database refuses a class without them (an `IntegrityError` on the non-null columns), and the model does not cover that error path: `Admin.CadastrarTurma` takes both as strings.
- `editar_turma` assigns the year unparsed and has no range check. Only its duplicate test excluding the class itself is modelled (`Admin.EditConflict`).
- The debug `print` in `lancar_nota` (core/views.py:808) is left out.
- The dashboard totals of `painel_super` (core/views.py:108-113) are plain database counts. They are left out.
- `Forms.GestorForm.Save` does not model the database writes of `gestor.save()` and `user.save()`: on a save without commit the account is changed in memory only. Its failure with no account is the `RelatedObjectDoesNotExist` that `if gestor.user` raises (core/models.py:160 makes the link required). A manager created through `cadastrar_gestor` (core/views.py:385-386) has no account yet, so that save fails.
