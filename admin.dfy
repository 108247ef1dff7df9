/**
 * The administration pages' decision rules: the list of years offered by
 * the year filter, and the checks made before a class or a subject is
 * created or a class is edited.
 */
module Admin {
  import opened Wrappers
  import opened Models
  import Text
  import Timetable

  // ---------------------------------------------------------------- year filter

  predicate StrictlyDescending(s: seq<int>) {
    forall i, j :: 0 <= i < j < |s| ==> s[i] > s[j]
  }

  function Elements(s: seq<int>): set<int> {
    set x | x in s
  }

  /** The requested year: `int(ano)` of the `ano` parameter, or the current year when it is missing, empty or not a number. */
  function FilterYear(ano: Option<string>, atual: int): (r: int)
    ensures ano.Some? && ano.value != "" && Text.ParseInt(ano.value).Some? ==> r == Text.ParseInt(ano.value).value
    ensures ano.None? || ano.value == "" || Text.ParseInt(ano.value).None? ==> r == atual
  {
    if ano.None? || ano.value == "" then atual
    else
      match Text.ParseInt(ano.value)
      case Some(y) => y
      case None => atual
  }

  /** The year written in a filter link is the year filtered by; anything that is not a number falls back to the current year. */
  lemma FilterYearOfLink(y: int, atual: int, s: string, k: nat)
    ensures FilterYear(Some(Text.IntToString(y)), atual) == y
    ensures k < |s| && !Text.IsSpace(s[k]) && !Text.IsAsciiDigit(s[k]) && s[k] != '-' && s[k] != '+' ==>
              FilterYear(Some(s), atual) == atual
    ensures FilterYear(None, atual) == atual && FilterYear(Some(""), atual) == atual
  {
    Text.ParseIntToString(y);
    if k < |s| && !Text.IsSpace(s[k]) && !Text.IsAsciiDigit(s[k]) && s[k] != '-' && s[k] != '+' {
      Text.ParseIntRejectsNonNumeric(s, k);
    }
  }

  /**
   * The years offered by the filter and the year filtered by. `anosDb` is the
   * distinct class years, newest first; with no classes it is the current
   * year alone. The filtered year is added when missing, keeping the list
   * newest first.
   */
  method YearFilter(anosDb: seq<int>, ano: Option<string>, atual: int) returns (anos: seq<int>, filtro: int)
    requires StrictlyDescending(anosDb)
    ensures filtro == FilterYear(ano, atual)
    ensures filtro in anos
    ensures StrictlyDescending(anos)
    ensures Elements(anos) == (if anosDb == [] then {atual} else Elements(anosDb)) + {filtro}
    ensures anosDb != [] && filtro in anosDb ==> anos == anosDb
  {
    anos := anosDb;
    if anos == [] {
      anos := [atual];
    }
    filtro := FilterYear(ano, atual);
    if filtro !in anos {
      // `append` then `sort(reverse=True)`: the year goes before the first older one
      var k := 0;
      while k < |anos| && anos[k] > filtro
        invariant 0 <= k <= |anos|
        invariant forall i :: 0 <= i < k ==> anos[i] > filtro
      {
        k := k + 1;
      }
      InsertDescending(anos, k, filtro);
      anos := anos[..k] + [filtro] + anos[k..];
    }
  }

  lemma InsertDescending(s: seq<int>, k: nat, x: int)
    requires StrictlyDescending(s) && k <= |s| && x !in s
    requires forall i :: 0 <= i < k ==> s[i] > x
    requires k < |s| ==> s[k] <= x
    ensures StrictlyDescending(s[..k] + [x] + s[k..])
    ensures Elements(s[..k] + [x] + s[k..]) == Elements(s) + {x}
  {
    InsertOrdered(s, k, x);
    ElementsConcat(s[..k], [x]);
    ElementsConcat(s[..k] + [x], s[k..]);
    ElementsConcat(s[..k], s[k..]);
    assert s[..k] + s[k..] == s;
    assert Elements([x]) == {x};
  }

  lemma InsertOrdered(s: seq<int>, k: nat, x: int)
    requires StrictlyDescending(s) && k <= |s| && x !in s
    requires forall i :: 0 <= i < k ==> s[i] > x
    requires k < |s| ==> s[k] <= x
    ensures StrictlyDescending(s[..k] + [x] + s[k..])
  {
    DescendingSlices(s, k);
    if k > 0 {
      assert s[..k][k - 1] == s[k - 1];
    }
    DescendingConcat(s[..k], [x]);
    if k < |s| {
      assert s[k] in s;
      assert s[k..][0] == s[k];
    }
    DescendingConcat(s[..k] + [x], s[k..]);
  }

  lemma ElementsConcat(a: seq<int>, b: seq<int>)
    ensures Elements(a + b) == Elements(a) + Elements(b)
  {
    assert forall y :: y in a + b <==> y in a || y in b;
  }

  lemma DescendingSlices(s: seq<int>, k: nat)
    requires StrictlyDescending(s) && k <= |s|
    ensures StrictlyDescending(s[..k]) && StrictlyDescending(s[k..])
  {
    assert forall i :: 0 <= i < |s| - k ==> s[k..][i] == s[k + i];
  }

  /** Two newest-first lists, the first ending newer than the second starts, join into one. */
  lemma DescendingConcat(a: seq<int>, b: seq<int>)
    requires StrictlyDescending(a) && StrictlyDescending(b)
    requires a != [] && b != [] ==> a[|a| - 1] > b[0]
    ensures StrictlyDescending(a + b)
  {
    var r := a + b;
    forall i, j | 0 <= i < j < |r| ensures r[i] > r[j] {
      if j < |a| {
        assert r[i] == a[i] && r[j] == a[j];
      } else if i >= |a| {
        assert r[i] == b[i - |a|] && r[j] == b[j - |a|];
      } else {
        assert r[i] == a[i] && a[i] >= a[|a| - 1];
        assert r[j] == b[j - |a|] && b[0] >= b[j - |a|];
      }
    }
  }

  /** An element of a newest-first list is no newer than its head. */
  lemma HeadIsMax(s: seq<int>, x: int)
    requires StrictlyDescending(s) && x in s
    ensures x <= s[0]
  {
  }

  /**
   * A newest-first list without repeats is determined by its years, so
   * inserting in place is the same as the source's append followed by a
   * descending sort.
   */
  lemma {:induction false} DescendingUnique(a: seq<int>, b: seq<int>)
    requires StrictlyDescending(a) && StrictlyDescending(b) && Elements(a) == Elements(b)
    ensures a == b
  {
    ElementsEmpty(a);
    ElementsEmpty(b);
    if a != [] {
      assert a[0] in Elements(b);
      assert b[0] in Elements(a);
      HeadIsMax(a, b[0]);
      HeadIsMax(b, a[0]);
      TailElements(a);
      TailElements(b);
      DescendingUnique(a[1..], b[1..]);
      assert a == [a[0]] + a[1..] && b == [b[0]] + b[1..];
    }
  }

  lemma ElementsEmpty(s: seq<int>)
    ensures Elements(s) == {} <==> s == []
  {
    if s != [] {
      assert s[0] in Elements(s);
    }
  }

  lemma TailElements(s: seq<int>)
    requires StrictlyDescending(s) && s != []
    ensures StrictlyDescending(s[1..])
    ensures Elements(s[1..]) == Elements(s) - {s[0]}
  {
    assert s == [s[0]] + s[1..];
    forall x | x in s[1..] ensures x != s[0] {
      var j :| 0 <= j < |s[1..]| && s[1..][j] == x;
      assert s[j + 1] == x;
    }
  }

  // ---------------------------------------------------------------- class creation

  /** `range(2010, ano_atual + 2)`: the years offered when creating a class. */
  function AnosOpcoes(atual: int): (r: seq<int>)
    ensures forall y :: y in r <==> 2010 <= y <= atual + 1
    ensures StrictlyAscending(r)
    decreases atual + 2 - 2010
  {
    if atual + 1 < 2010 then []
    else
      var r := AnosOpcoes(atual - 1);
      assert forall y :: y in r + [atual + 1] <==> y in r || y == atual + 1;
      assert forall i :: 0 <= i < |r| ==> r[i] in r;
      r + [atual + 1]
  }

  predicate StrictlyAscending(s: seq<int>) {
    forall i, j :: 0 <= i < j < |s| ==> s[i] < s[j]
  }

  datatype TurmaError = AnoInvalido | AnoForaDoIntervalo | TurmaDuplicada

  /** The message shown for each error. */
  function TurmaErrorMessage(e: TurmaError): string {
    match e
    case AnoInvalido => "Ano letivo inválido."
    case AnoForaDoIntervalo => "O ano letivo deve ser entre 2010 e o próximo ano."
    case TurmaDuplicada => "Essa turma já existe neste ano."
  }

  /** Some class already has this name in this year. */
  predicate TurmaExists(turmas: seq<Turma>, nome: string, ano: int) {
    exists t :: t in turmas && t.nome == nome && t.ano == ano
  }

  /** No two classes share both name and year. */
  predicate UniqueNameYear(turmas: seq<Turma>) {
    forall i, j ::
      0 <= i < |turmas| && 0 <= j < |turmas| && turmas[i].nome == turmas[j].nome && turmas[i].ano == turmas[j].ano
      ==> i == j
  }

  /**
   * `cadastrar_turma` on a submitted form: the year must parse, lie between
   * 2010 and next year, and not already hold a class of that name. The first
   * failing check is the one reported; on success the class is appended
   * with the id `newId` the database assigns.
   */
  function CadastrarTurma(turmas: seq<Turma>, nome: string, turno: string, ano: Option<string>, atual: int, newId: int)
    : (r: Result<seq<Turma>, TurmaError>)
    ensures r == Failure(AnoInvalido) <==> ano.None? || Text.ParseInt(ano.value).None?
    ensures r == Failure(AnoForaDoIntervalo) <==>
              ano.Some? && Text.ParseInt(ano.value).Some? && Text.ParseInt(ano.value).value !in AnosOpcoes(atual)
    ensures r == Failure(TurmaDuplicada) <==>
              ano.Some? && Text.ParseInt(ano.value).Some? && Text.ParseInt(ano.value).value in AnosOpcoes(atual) &&
              TurmaExists(turmas, nome, Text.ParseInt(ano.value).value)
    ensures r.Success? ==> r.value == turmas + [Turma(newId, nome, turno, Text.ParseInt(ano.value).value)]
  {
    if ano.None? then Failure(AnoInvalido)
    else
      match Text.ParseInt(ano.value)
      case None => Failure(AnoInvalido)
      case Some(y) =>
        if y < 2010 || y > atual + 1 then Failure(AnoForaDoIntervalo)
        else if TurmaExists(turmas, nome, y) then Failure(TurmaDuplicada)
        else Success(turmas + [Turma(newId, nome, turno, y)])
  }

  /** Creating classes through the page never makes two classes with the same name and year. */
  lemma CadastrarTurmaKeepsUnique(turmas: seq<Turma>, nome: string, turno: string, ano: Option<string>, atual: int, newId: int)
    requires UniqueNameYear(turmas)
    ensures CadastrarTurma(turmas, nome, turno, ano, atual, newId).Success? ==>
              UniqueNameYear(CadastrarTurma(turmas, nome, turno, ano, atual, newId).value)
  {
    var r := CadastrarTurma(turmas, nome, turno, ano, atual, newId);
    if r.Success? {
      var s := r.value;
      forall i, j | 0 <= i < |s| && 0 <= j < |s| && s[i].nome == s[j].nome && s[i].ano == s[j].ano
        ensures i == j
      {
        if i < |turmas| && j < |turmas| {
          assert s[i] == turmas[i] && s[j] == turmas[j];
        }
      }
    }
  }

  /** `editar_turma`'s check: another class, not this one, already has this name in this year. */
  predicate EditConflict(turmas: seq<Turma>, id: int, nome: string, ano: int): (r: bool)
    ensures r ==> TurmaExists(turmas, nome, ano)
    ensures TurmaExists(turmas, nome, ano) && !r ==>
              forall t :: t in turmas && t.nome == nome && t.ano == ano ==> t.id == id
  {
    exists t :: t in turmas && t.id != id && t.nome == nome && t.ano == ano
  }

  /** Saving a class unchanged is never a conflict, whereas a creation check on the same data would report a duplicate. */
  lemma EditUnchangedNoConflict(turmas: seq<Turma>, k: nat)
    requires UniqueNameYear(turmas) && k < |turmas|
    requires forall i, j :: 0 <= i < |turmas| && 0 <= j < |turmas| && turmas[i].id == turmas[j].id ==> i == j
    ensures !EditConflict(turmas, turmas[k].id, turmas[k].nome, turmas[k].ano)
    ensures TurmaExists(turmas, turmas[k].nome, turmas[k].ano)
  {
    forall t | t in turmas && t.nome == turmas[k].nome && t.ano == turmas[k].ano
      ensures t.id == turmas[k].id
    {
      var j :| 0 <= j < |turmas| && turmas[j] == t;
    }
    assert turmas[k] in turmas;
  }

  // ---------------------------------------------------------------- subject creation

  datatype DisciplinaError = CamposVazios | IdInvalido | ProfessorNaoEncontrado | DisciplinaDuplicada

  /** Python's truth value of a form field: missing and empty are both false. */
  predicate Filled(v: Option<string>) {
    v.Some? && v.value != ""
  }

  /** Some subject of this class already has this name. */
  predicate DisciplinaExists(discs: seq<Disciplina>, nome: string, turma: int) {
    exists d :: d in discs && d.nome == nome && d.turma == turma
  }

  /**
   * `cadastrar_disciplina_para_turma` on a submitted form: both fields must
   * be filled, the teacher id must name a teacher (`IdInvalido` is the
   * exception a non-numeric id raises, `ProfessorNaoEncontrado` the 404),
   * and the class must not already have a subject of that name.
   */
  function CadastrarDisciplina(discs: seq<Disciplina>, professores: set<int>, turma: int,
                               nome: Option<string>, professorId: Option<string>, newId: int)
    : (r: Result<seq<Disciplina>, DisciplinaError>)
    ensures r == Failure(CamposVazios) <==> !Filled(nome) || !Filled(professorId)
    ensures r.Success? <==>
              Filled(nome) && Filled(professorId) && Text.ParseInt(professorId.value).Some? &&
              Text.ParseInt(professorId.value).value in professores && !DisciplinaExists(discs, nome.value, turma)
    ensures r.Success? ==>
              r.value == discs + [Disciplina(newId, nome.value, Text.ParseInt(professorId.value).value, turma)]
    ensures r == Failure(IdInvalido) <==>
              Filled(nome) && Filled(professorId) && Text.ParseInt(professorId.value).None?
    ensures r == Failure(ProfessorNaoEncontrado) <==>
              Filled(nome) && Filled(professorId) && Text.ParseInt(professorId.value).Some? &&
              Text.ParseInt(professorId.value).value !in professores
    ensures r == Failure(DisciplinaDuplicada) <==>
              Filled(nome) && Filled(professorId) && Text.ParseInt(professorId.value).Some? &&
              Text.ParseInt(professorId.value).value in professores && DisciplinaExists(discs, nome.value, turma)
  {
    if !Filled(nome) || !Filled(professorId) then Failure(CamposVazios)
    else
      match Text.ParseInt(professorId.value)
      case None => Failure(IdInvalido)
      case Some(p) =>
        if p !in professores then Failure(ProfessorNaoEncontrado)
        else if DisciplinaExists(discs, nome.value, turma) then Failure(DisciplinaDuplicada)
        else Success(discs + [Disciplina(newId, nome.value, p, turma)])
  }

  /** Subjects created through this page keep names unique within a class, which the timetable's lookup by name relies on. */
  lemma CadastrarDisciplinaKeepsUnique(discs: seq<Disciplina>, professores: set<int>, turma: int,
                                       nome: Option<string>, professorId: Option<string>, newId: int)
    requires Timetable.UniqueSubjects(discs)
    requires forall d :: d in discs ==> d.id != newId
    ensures CadastrarDisciplina(discs, professores, turma, nome, professorId, newId).Success? ==>
              Timetable.UniqueSubjects(CadastrarDisciplina(discs, professores, turma, nome, professorId, newId).value)
  {
    var r := CadastrarDisciplina(discs, professores, turma, nome, professorId, newId);
    if r.Success? {
      var s := r.value;
      var nd := s[|s| - 1];
      forall d1, d2 | d1 in s && d2 in s && d1.nome == d2.nome && d1.turma == d2.turma
        ensures d1 == d2
      {
        assert d1 in discs || d1 == nd;
        assert d2 in discs || d2 == nd;
      }
    }
  }
}
