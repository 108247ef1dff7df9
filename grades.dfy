/**
 * Entering grades: the merge of a submitted grade sheet into the students'
 * grade records of one subject, and the grade counters of the student's
 * dashboard.
 */
module Grades {
  import opened Wrappers
  import opened Models
  import Text
  import Timetable

  /** `float(...)` on a string: the number it denotes, or `None` where `float` raises `ValueError`. */
  type Parser = string -> Option<real>

  /** The grade records, by (student id, subject id) (one per pair). */
  type NotaStore = map<(int, int), Nota>

  /** A value that could not be read as a number, reported to the user. */
  datatype Invalid = Invalid(aluno: int, bimestre: int, valor: string)

  /** The form field of bimester `i` of a student: `f"nota{i}_{aluno.pk}"`. */
  function GradeField(i: int, aluno: int): string {
    "nota" + Text.IntToString(i) + "_" + Text.IntToString(aluno)
  }

  /** `request.POST.get(campo, '').strip()`. */
  function Entry(post: Timetable.PostData, i: int, aluno: int): string {
    Text.Strip(Timetable.PostGet(post, GradeField(i, aluno)))
  }

  /** The number an entry denotes, a comma read as the decimal point. */
  function Reading(valor: string, parse: Parser): Option<real> {
    parse(Text.ReplaceChar(valor, ',', '.'))
  }

  /** Bimester `i` (1 to 4) of a record. */
  function Bimestre(n: Nota, i: int): Option<real>
    requires 1 <= i <= 4
  {
    if i == 1 then n.nota1 else if i == 2 then n.nota2 else if i == 3 then n.nota3 else n.nota4
  }

  /** `setattr(nota_obj, f'nota{i}', v)`. */
  function SetBimestre(n: Nota, i: int, v: Option<real>): (r: Nota)
    requires 1 <= i <= 4
    ensures Bimestre(r, i) == v
    ensures forall j :: 1 <= j <= 4 && j != i ==> Bimestre(r, j) == Bimestre(n, j)
    ensures r.aluno == n.aluno && r.disciplina == n.disciplina
  {
    if i == 1 then n.(nota1 := v) else if i == 2 then n.(nota2 := v) else if i == 3 then n.(nota3 := v) else n.(nota4 := v)
  }

  /** The four stripped entries of a student's fields, bimester 1 first. */
  function Sheet(post: Timetable.PostData, aluno: int): (r: seq<string>)
    ensures |r| == 4
  {
    seq(4, j => Entry(post, j + 1, aluno))
  }

  /** What a bimester becomes: the number read from its own field, or the recorded grade when the field is blank or unreadable. */
  function MergedGrade(recorded: Option<real>, valor: string, parse: Parser): (r: Option<real>)
    ensures valor != "" && Reading(valor, parse).Some? ==> r == Reading(valor, parse)
    ensures valor == "" || Reading(valor, parse).None? ==> r == recorded
    ensures recorded.Some? ==> r.Some?
  {
    if valor != "" && Reading(valor, parse).Some? then Reading(valor, parse) else recorded
  }

  /** A record with the sheet's four entries applied, each to its own bimester. */
  function Merged(n: Nota, vals: seq<string>, parse: Parser): (r: Nota)
    requires |vals| == 4
    ensures r.aluno == n.aluno && r.disciplina == n.disciplina
    ensures n.nota1.Some? ==> r.nota1.Some?
    ensures n.nota2.Some? ==> r.nota2.Some?
    ensures n.nota3.Some? ==> r.nota3.Some?
    ensures n.nota4.Some? ==> r.nota4.Some?
  {
    Nota(n.aluno, n.disciplina,
         MergedGrade(n.nota1, vals[0], parse), MergedGrade(n.nota2, vals[1], parse),
         MergedGrade(n.nota3, vals[2], parse), MergedGrade(n.nota4, vals[3], parse))
  }

  /** Bimester `i` of the merged record, in terms of field `i` alone; no other part of the record changes. */
  lemma MergedSpec(n: Nota, vals: seq<string>, parse: Parser, i: int)
    requires |vals| == 4 && 1 <= i <= 4
    ensures Bimestre(Merged(n, vals, parse), i) == MergedGrade(Bimestre(n, i), vals[i - 1], parse)
    ensures Merged(n, vals, parse).aluno == n.aluno && Merged(n, vals, parse).disciplina == n.disciplina
  {
  }

  /** Two records that agree on every bimester, student and subject are the same record. */
  lemma NotaExt(a: Nota, b: Nota)
    requires a.aluno == b.aluno && a.disciplina == b.disciplina
    requires forall i :: 1 <= i <= 4 ==> Bimestre(a, i) == Bimestre(b, i)
    ensures a == b
  {
    assert Bimestre(a, 1) == Bimestre(b, 1) && Bimestre(a, 2) == Bimestre(b, 2);
    assert Bimestre(a, 3) == Bimestre(b, 3) && Bimestre(a, 4) == Bimestre(b, 4);
  }

  /** Submitting the same sheet twice changes nothing the second time. */
  lemma MergedIdempotent(n: Nota, vals: seq<string>, parse: Parser)
    requires |vals| == 4
    ensures Merged(Merged(n, vals, parse), vals, parse) == Merged(n, vals, parse)
  {
  }

  /** A blank field never erases a grade: every grade entered before is still entered, so the count never drops. */
  lemma MergedKeepsRecorded(n: Nota, vals: seq<string>, parse: Parser)
    requires |vals| == 4
    ensures forall i :: 1 <= i <= 4 && Bimestre(n, i).Some? ==> Bimestre(Merged(n, vals, parse), i).Some?
    ensures CountRecorded(Bimestres(Merged(n, vals, parse))) >= CountRecorded(Bimestres(n))
  {
    CountOfFour(n);
    CountOfFour(Merged(n, vals, parse));
  }

  /** The count of entered grades of a record, bimester by bimester. */
  lemma CountOfFour(n: Nota)
    ensures CountRecorded(Bimestres(n)) ==
              (if n.nota1.Some? then 1 else 0) + (if n.nota2.Some? then 1 else 0) +
              (if n.nota3.Some? then 1 else 0) + (if n.nota4.Some? then 1 else 0)
  {
    var four: seq<Option<real>> := [n.nota4];
    CountCons(n.nota4, []);
    assert [n.nota4] + [] == four;
    CountCons(n.nota3, four);
    CountCons(n.nota2, [n.nota3] + four);
    CountCons(n.nota1, [n.nota2] + ([n.nota3] + four));
    assert Bimestres(n) == [n.nota1] + ([n.nota2] + ([n.nota3] + four));
  }

  lemma CountCons(g: Option<real>, rest: seq<Option<real>>)
    ensures CountRecorded([g] + rest) == (if g.Some? then 1 else 0) + CountRecorded(rest)
  {
    assert ([g] + rest)[1..] == rest;
  }

  /** The unreadable entries among the first `k` of a student's sheet, in order. */
  function InvalidsUpTo(aluno: int, vals: seq<string>, parse: Parser, k: nat): seq<Invalid>
    requires k <= |vals|
  {
    if k == 0 then []
    else
      InvalidsUpTo(aluno, vals, parse, k - 1) + StepErrors(aluno, k, vals[k - 1], parse)
  }

  /** The report of one field: the entry, when it is filled in and unreadable. */
  function StepErrors(aluno: int, i: int, valor: string, parse: Parser): seq<Invalid> {
    if valor != "" && Reading(valor, parse).None? then [Invalid(aluno, i, valor)] else []
  }

  /** One field applied to the record being built: `setattr` when the entry reads as a number. */
  function Step(merged: Nota, i: int, valor: string, parse: Parser): Nota
    requires 1 <= i <= 4
  {
    if valor != "" && Reading(valor, parse).Some? then SetBimestre(merged, i, Reading(valor, parse)) else merged
  }

  /** The bimesters before `i` are merged, the others still as recorded. */
  ghost predicate PartlyMerged(nota: Nota, merged: Nota, vals: seq<string>, parse: Parser, i: int)
    requires |vals| == 4
  {
    merged.aluno == nota.aluno && merged.disciplina == nota.disciplina &&
    forall j :: 1 <= j <= 4 ==>
      Bimestre(merged, j) == if j < i then MergedGrade(Bimestre(nota, j), vals[j - 1], parse) else Bimestre(nota, j)
  }

  lemma StepMerges(nota: Nota, merged: Nota, vals: seq<string>, parse: Parser, i: int)
    requires |vals| == 4 && 1 <= i <= 4 && PartlyMerged(nota, merged, vals, parse, i)
    ensures PartlyMerged(nota, Step(merged, i, vals[i - 1], parse), vals, parse, i + 1)
  {
  }

  /** The unreadable entries of a whole submission, student by student. */
  function AllInvalids(alunos: seq<int>, post: Timetable.PostData, parse: Parser): seq<Invalid> {
    if alunos == [] then []
    else AllInvalids(alunos[..|alunos| - 1], post, parse) + StudentInvalids(alunos[|alunos| - 1], post, parse)
  }

  lemma AllInvalidsAppend(alunos: seq<int>, a: int, post: Timetable.PostData, parse: Parser)
    ensures AllInvalids(alunos + [a], post, parse) == AllInvalids(alunos, post, parse) + StudentInvalids(a, post, parse)
  {
    assert (alunos + [a])[..|alunos|] == alunos;
  }

  /** The unreadable entries of one student's four fields. */
  function StudentInvalids(aluno: int, post: Timetable.PostData, parse: Parser): seq<Invalid> {
    var vals := Sheet(post, aluno);
    InvalidsUpTo(aluno, vals, parse, |vals|)
  }

  /** An entry is reported exactly when it is filled in and cannot be read as a number. */
  lemma {:induction false} InvalidsUpToSpec(aluno: int, vals: seq<string>, parse: Parser, k: nat, x: Invalid)
    requires k <= |vals|
    ensures x in InvalidsUpTo(aluno, vals, parse, k) <==>
              x.aluno == aluno && 1 <= x.bimestre <= k && x.valor == vals[x.bimestre - 1] &&
              x.valor != "" && Reading(x.valor, parse).None?
  {
    if k > 0 {
      InvalidsUpToSpec(aluno, vals, parse, k - 1, x);
    }
  }

  /** The record of a student before the sheet is applied: the stored one, or a blank one (`get_or_create`). */
  function Base(store: NotaStore, aluno: int, disciplina: int): Nota {
    if (aluno, disciplina) in store then store[(aluno, disciplina)] else Nota(aluno, disciplina, None, None, None, None)
  }

  /** One student's fields: `for i in range(1, 5)` with `setattr` on the record. */
  method MergeStudent(nota: Nota, aluno: int, post: Timetable.PostData, parse: Parser)
    returns (merged: Nota, erros: seq<Invalid>)
    ensures merged == Merged(nota, Sheet(post, aluno), parse)
    ensures erros == StudentInvalids(aluno, post, parse)
  {
    ghost var vals := Sheet(post, aluno);
    merged := nota;
    erros := [];
    var i := 1;
    while i < 5
      invariant 1 <= i <= 5
      invariant PartlyMerged(nota, merged, vals, parse, i)
      invariant erros == InvalidsUpTo(aluno, vals, parse, i - 1)
    {
      var valor := Entry(post, i, aluno);
      assert valor == vals[i - 1];
      StepMerges(nota, merged, vals, parse, i);
      ghost var next := Step(merged, i, valor, parse);
      ghost var nextErros := erros + StepErrors(aluno, i, valor, parse);
      if valor != "" {
        var v := Reading(valor, parse);
        if v.None? {
          erros := erros + [Invalid(aluno, i, valor)];
        } else {
          merged := SetBimestre(merged, i, v);
        }
      }
      assert merged == next && erros == nextErros;
      i := i + 1;
    }
    FullyMerged(nota, merged, vals, parse);
  }

  lemma FullyMerged(nota: Nota, merged: Nota, vals: seq<string>, parse: Parser)
    requires |vals| == 4 && PartlyMerged(nota, merged, vals, parse, 5)
    ensures merged == Merged(nota, vals, parse)
  {
    forall j | 1 <= j <= 4
      ensures Bimestre(merged, j) == Bimestre(Merged(nota, vals, parse), j)
    {
      MergedSpec(nota, vals, parse, j);
    }
    NotaExt(merged, Merged(nota, vals, parse));
  }

  /**
   * `lancar_nota` on a submitted sheet for the students `alunos` of subject
   * `disciplina`: each student's record, created blank when missing, gets
   * the sheet applied; no other record changes; the unreadable entries are
   * reported in order.
   */
  method LancarNotas(store: NotaStore, alunos: seq<int>, disciplina: int, post: Timetable.PostData, parse: Parser)
    returns (store': NotaStore, erros: seq<Invalid>)
    requires forall i, j :: 0 <= i < j < |alunos| ==> alunos[i] != alunos[j]
    ensures forall key :: key in store' <==> key in store || (key.1 == disciplina && key.0 in alunos)
    ensures forall a :: a in alunos ==> store'[(a, disciplina)] == Updated(store, a, disciplina, post, parse)
    ensures forall key :: key in store && !(key.1 == disciplina && key.0 in alunos) ==> store'[key] == store[key]
    ensures erros == AllInvalids(alunos, post, parse)
  {
    ghost var upd := (a: int) => Updated(store, a, disciplina, post, parse);
    store' := store;
    erros := [];
    var k := 0;
    while k < |alunos|
      invariant 0 <= k <= |alunos|
      invariant SavedFor(store, store', alunos[..k], disciplina, upd)
      invariant erros == AllInvalids(alunos[..k], post, parse)
    {
      var aluno := alunos[k];
      BaseNotYetSaved(store, store', alunos, k, disciplina, upd);
      var nota := Base(store', aluno, disciplina);
      var merged, es := MergeStudent(nota, aluno, post, parse);
      assert merged == upd(aluno);
      SaveStudentStep(store, store', alunos, k, disciplina, post, parse, upd, erros, es);
      store' := store'[(aluno, disciplina) := merged];
      erros := erros + es;
      k := k + 1;
    }
    assert alunos[..k] == alunos;
    SavedForAll(store, store', alunos, disciplina, post, parse, upd);
  }

  /** A student not yet processed still has the stored record (or none). */
  lemma BaseNotYetSaved(store: NotaStore, cur: NotaStore, alunos: seq<int>, k: nat, disciplina: int, upd: int -> Nota)
    requires k < |alunos| && forall i, j :: 0 <= i < j < |alunos| ==> alunos[i] != alunos[j]
    requires SavedFor(store, cur, alunos[..k], disciplina, upd)
    ensures Base(cur, alunos[k], disciplina) == Base(store, alunos[k], disciplina)
  {
    assert alunos[k] !in alunos[..k];
  }

  /** Saving the next student's record keeps the loop's account of the records and of the errors. */
  lemma SaveStudentStep(store: NotaStore, cur: NotaStore, alunos: seq<int>, k: nat, disciplina: int,
                        post: Timetable.PostData, parse: Parser, upd: int -> Nota,
                        erros: seq<Invalid>, es: seq<Invalid>)
    requires k < |alunos| && forall i, j :: 0 <= i < j < |alunos| ==> alunos[i] != alunos[j]
    requires SavedFor(store, cur, alunos[..k], disciplina, upd)
    requires erros == AllInvalids(alunos[..k], post, parse) && es == StudentInvalids(alunos[k], post, parse)
    ensures SavedFor(store, cur[(alunos[k], disciplina) := upd(alunos[k])], alunos[..k + 1], disciplina, upd)
    ensures erros + es == AllInvalids(alunos[..k + 1], post, parse)
  {
    assert alunos[..k + 1] == alunos[..k] + [alunos[k]];
    assert alunos[k] !in alunos[..k];
    SavedForStep(store, cur, alunos[..k], alunos[k], disciplina, upd);
    AllInvalidsAppend(alunos[..k], alunos[k], post, parse);
  }

  lemma SavedForAll(store: NotaStore, cur: NotaStore, alunos: seq<int>, disciplina: int,
                    post: Timetable.PostData, parse: Parser, upd: int -> Nota)
    requires SavedFor(store, cur, alunos, disciplina, upd)
    requires forall a :: upd(a) == Updated(store, a, disciplina, post, parse)
    ensures forall key :: key in cur <==> key in store || (key.1 == disciplina && key.0 in alunos)
    ensures forall a :: a in alunos ==> cur[(a, disciplina)] == Updated(store, a, disciplina, post, parse)
    ensures forall key :: key in store && !(key.1 == disciplina && key.0 in alunos) ==> cur[key] == store[key]
  {
  }

  /** After the students `done` were processed: their records are `upd` of them, and every other record is as stored. */
  ghost predicate SavedFor(store: NotaStore, cur: NotaStore, done: seq<int>, disciplina: int, upd: int -> Nota) {
    (forall key :: key in cur <==> key in store || (key.1 == disciplina && key.0 in done)) &&
    (forall a :: a in done ==> cur[(a, disciplina)] == upd(a)) &&
    (forall key :: key in store && !(key.1 == disciplina && key.0 in done) ==> cur[key] == store[key])
  }

  lemma SavedForStep(store: NotaStore, cur: NotaStore, done: seq<int>, a: int, disciplina: int, upd: int -> Nota)
    requires SavedFor(store, cur, done, disciplina, upd) && a !in done
    ensures SavedFor(store, cur[(a, disciplina) := upd(a)], done + [a], disciplina, upd)
  {
  }

  /** The record of student `a` after the submission: the stored or blank one, with the student's sheet applied. */
  function Updated(store: NotaStore, a: int, disciplina: int, post: Timetable.PostData, parse: Parser): Nota {
    Merged(Base(store, a, disciplina), Sheet(post, a), parse)
  }

  /** Entering a sheet keeps every grade already entered, and entering it again changes nothing. */
  lemma UpdatedKeepsAndSettles(store: NotaStore, a: int, disciplina: int, post: Timetable.PostData, parse: Parser)
    ensures (a, disciplina) in store ==>
              CountRecorded(Bimestres(Updated(store, a, disciplina, post, parse))) >=
              CountRecorded(Bimestres(store[(a, disciplina)]))
    ensures Updated(store[(a, disciplina) := Updated(store, a, disciplina, post, parse)], a, disciplina, post, parse) ==
              Updated(store, a, disciplina, post, parse)
  {
    MergedKeepsRecorded(Base(store, a, disciplina), Sheet(post, a), parse);
    MergedIdempotent(Base(store, a, disciplina), Sheet(post, a), parse);
  }

  // ---------------------------------------------------------------- dashboard counters

  /** `Nota.objects.filter(aluno=aluno, disciplina=disciplina).first()`. */
  function FirstNota(notas: seq<Nota>, aluno: int, disciplina: int): (r: Option<Nota>)
    ensures r.Some? ==> r.value in notas && r.value.aluno == aluno && r.value.disciplina == disciplina
    ensures r.None? ==> forall n :: n in notas ==> n.aluno != aluno || n.disciplina != disciplina
    ensures r.Some? ==>
              exists k :: 0 <= k < |notas| && notas[k] == r.value &&
                forall j :: 0 <= j < k ==> notas[j].aluno != aluno || notas[j].disciplina != disciplina
  {
    if notas == [] then None
    else if notas[0].aluno == aluno && notas[0].disciplina == disciplina then
      assert notas[0] == notas[0];
      Some(notas[0])
    else
      var r := FirstNota(notas[1..], aluno, disciplina);
      if r.Some? then
        var k :| 0 <= k < |notas[1..]| && notas[1..][k] == r.value &&
                 forall j :: 0 <= j < k ==> notas[1..][j].aluno != aluno || notas[1..][j].disciplina != disciplina;
        assert notas[k + 1] == r.value;
        assert forall j :: 0 <= j < k + 1 ==> notas[j].aluno != aluno || notas[j].disciplina != disciplina by {
          forall j | 0 <= j < k + 1 ensures notas[j].aluno != aluno || notas[j].disciplina != disciplina {
            if j > 0 {
              assert notas[j] == notas[1..][j - 1];
            }
          }
        }
        r
      else
        r
  }

  /** The grades a subject contributes to the count: none without a record. */
  function Contribution(nota: Option<Nota>): nat {
    match nota
    case None => 0
    case Some(n) => CountRecorded(Bimestres(n))
  }

  /** The number of grades entered across the subjects `discs` of a student. */
  function Lancadas(discs: seq<Disciplina>, notas: seq<Nota>, aluno: int): nat {
    if discs == [] then 0
    else Lancadas(discs[..|discs| - 1], notas, aluno) + Contribution(FirstNota(notas, aluno, discs[|discs| - 1].id))
  }

  /**
   * The counters of the student's dashboard: four possible grades per
   * subject, the grades entered so far, and each subject with its record.
   */
  method Counters(discs: seq<Disciplina>, notas: seq<Nota>, aluno: int)
    returns (possiveis: int, lancadas: int, comNotas: seq<(Disciplina, Option<Nota>)>)
    ensures possiveis == 4 * |discs|
    ensures lancadas == Lancadas(discs, notas, aluno)
    ensures |comNotas| == |discs|
    ensures forall k :: 0 <= k < |discs| ==> comNotas[k] == (discs[k], FirstNota(notas, aluno, discs[k].id))
  {
    possiveis := |discs| * 4;
    lancadas := 0;
    comNotas := [];
    var k := 0;
    while k < |discs|
      invariant 0 <= k <= |discs|
      invariant lancadas == Lancadas(discs[..k], notas, aluno)
      invariant |comNotas| == k
      invariant forall m :: 0 <= m < k ==> comNotas[m] == (discs[m], FirstNota(notas, aluno, discs[m].id))
    {
      var disciplina := discs[k];
      assert discs[..k + 1][..k] == discs[..k];
      var nota := FirstNota(notas, aluno, disciplina.id);
      if nota.Some? {
        var n := nota.value;
        CountOfFour(n);
        if n.nota1.Some? { lancadas := lancadas + 1; }
        if n.nota2.Some? { lancadas := lancadas + 1; }
        if n.nota3.Some? { lancadas := lancadas + 1; }
        if n.nota4.Some? { lancadas := lancadas + 1; }
      }
      comNotas := comNotas + [(disciplina, nota)];
      k := k + 1;
    }
    assert discs[..k] == discs;
  }

  /**
   * The entered grades never exceed the possible ones, and reach them
   * exactly when every subject has a record with all four bimesters entered.
   */
  lemma {:induction false} LancadasBounds(discs: seq<Disciplina>, notas: seq<Nota>, aluno: int)
    ensures Lancadas(discs, notas, aluno) <= 4 * |discs|
    ensures Lancadas(discs, notas, aluno) == 4 * |discs| <==>
              forall d :: d in discs ==> Complete(FirstNota(notas, aluno, d.id))
  {
    if discs != [] {
      var init, last := discs[..|discs| - 1], discs[|discs| - 1];
      LancadasBounds(init, notas, aluno);
      ContributionBounds(FirstNota(notas, aluno, last.id));
      assert discs == init + [last];
      assert forall d :: d in discs <==> d in init || d == last;
    }
  }

  /** A record exists and all four of its bimesters are entered. */
  predicate Complete(nota: Option<Nota>) {
    nota.Some? && nota.value.nota1.Some? && nota.value.nota2.Some? && nota.value.nota3.Some? && nota.value.nota4.Some?
  }

  /** A subject contributes at most four grades, four exactly when complete, none exactly when it has no average. */
  lemma ContributionBounds(nota: Option<Nota>)
    ensures Contribution(nota) <= 4
    ensures Contribution(nota) == 4 <==> Complete(nota)
    ensures Contribution(nota) == 0 <==> nota.None? || Media(nota.value).None?
  {
    if nota.Some? {
      CountOfFour(nota.value);
    }
  }
}
