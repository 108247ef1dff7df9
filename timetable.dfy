/**
 * The weekly timetable ("grade horária") of a class: the slot table of each
 * shift, the empty grid, the map of teachers already busy in other classes,
 * the subjects offered in each cell, the grid rebuilt from a submitted form
 * and the table shown to the user.
 */
module Timetable {
  import opened Wrappers
  import opened Models
  import Text

  /** A (weekday, slot index) position of the grid. */
  type Slot = (string, int)

  /** Teacher id to the positions where the teacher already teaches in another class. */
  type Occupancy = map<int, set<Slot>>

  /** A submitted form: field name to its (last) value. */
  type PostData = map<string, string>

  const Dias: seq<string> := ["segunda", "terca", "quarta", "quinta", "sexta"]

  const NomesDias: seq<string> := ["Segunda", "Terça", "Quarta", "Quinta", "Sexta"]

  /** The time slots of each shift. */
  const Horarios: map<string, seq<string>> := map[
    "manha" := ["07:00 às 07:45", "07:45 às 08:30", "08:50 às 09:35",
                "09:35 às 10:20", "10:30 às 11:15", "11:15 às 12:00"],
    "tarde" := ["13:00 às 13:45", "13:45 às 14:30", "14:50 às 15:35",
                "15:35 às 16:20", "16:30 às 17:15", "17:15 às 18:00"],
    "noite" := ["19:00 às 19:45", "19:45 às 20:30", "20:40 às 21:25",
                "21:25 às 22:00"]
  ]

  // ---------------------------------------------------------------- shift

  /** The shift key: lower-cased, with 'ã' and 'á' replaced by 'a'. */
  function ShiftKey(turno: string): (r: string)
    ensures |r| == |turno|
    ensures forall i :: 0 <= i < |turno| ==>
              r[i] == if Text.LowerChar(turno[i]) in {'ã', 'á'} then 'a' else Text.LowerChar(turno[i])
  {
    Text.ReplaceChar(Text.ReplaceChar(Text.Lower(turno), 'ã', 'a'), 'á', 'a')
  }

  /** Normalising a key that is already normalised changes nothing. */
  lemma ShiftKeyIdempotent(turno: string)
    ensures ShiftKey(ShiftKey(turno)) == ShiftKey(turno)
  {
    var k := ShiftKey(turno);
    forall i | 0 <= i < |k|
      ensures ShiftKey(k)[i] == k[i]
    {
      var c := Text.LowerChar(turno[i]);
      assert k[i] == if c == 'ã' || c == 'á' then 'a' else c;
    }
  }

  /** Every stored shift choice, by key and by display label, finds its slot table. */
  lemma ShiftChoicesHaveSlots()
    ensures (set c | c in TurnoChoices :: c.0) == Horarios.Keys
    ensures forall c :: c in TurnoChoices ==> ShiftKey(c.0) == c.0 && ShiftKey(c.1) == c.0
    ensures ShiftKey("MANHÃ") == "manha"
  {
    assert forall c :: c in TurnoChoices <==> c == ("manha", "Manhã") || c == ("tarde", "Tarde") || c == ("noite", "Noite");
    assert ShiftKey("manha") == "manha" && ShiftKey("Manhã") == "manha" && ShiftKey("MANHÃ") == "manha";
    assert ShiftKey("tarde") == "tarde" && ShiftKey("Tarde") == "tarde";
    assert ShiftKey("noite") == "noite" && ShiftKey("Noite") == "noite";
  }

  /** The shift has no slot table: the page reports an invalid shift. */
  predicate InvalidShift(turno: string) {
    ShiftKey(turno) !in Horarios
  }

  /** `HORARIOS.get(turno_key, [])`, replaced by the one-slot list `[""]` when empty. */
  function SlotsFor(turno: string): (r: seq<string>)
    ensures |r| >= 1
    ensures !InvalidShift(turno) ==> r == Horarios[ShiftKey(turno)]
    ensures InvalidShift(turno) ==> r == [""]
  {
    var key := ShiftKey(turno);
    var horarios := if key in Horarios then Horarios[key] else [];
    if horarios == [] then [""] else horarios
  }

  // ---------------------------------------------------------------- grid

  /** `{dia: [""] * n for dia in dias}`. */
  function EmptyGrid(n: nat): (g: Grid)
    ensures g.Keys == set d | d in Dias
    ensures forall d :: d in g ==> |g[d]| == n && forall i :: 0 <= i < n ==> g[d][i] == ""
  {
    map d | d in Dias :: seq(n, i => "")
  }

  /** A stored grid that is empty (`not grade.dados`) is replaced by the empty grid of `n` slots; any other is kept. */
  function InitGrid(dados: Grid, n: nat): (g: Grid)
    ensures dados != map[] ==> g == dados
    ensures dados == map[] ==> g == EmptyGrid(n)
  {
    if dados == map[] then EmptyGrid(n) else dados
  }

  /** `dados.get(dia, [])`. */
  function DayList(dados: Grid, dia: string): seq<string> {
    if dia in dados then dados[dia] else []
  }

  /** The subject name shown in a cell: the stored entry if the day's list is long enough, else "". */
  function CellValue(dados: Grid, dia: string, i: int): string {
    var lista := DayList(dados, dia);
    if 0 <= i < |lista| then lista[i] else ""
  }

  // ---------------------------------------------------------------- occupancy

  /** No two subjects of one class share a name (what the lookup by name and class relies on). */
  ghost predicate UniqueSubjects(discs: seq<Disciplina>) {
    forall d1, d2 :: d1 in discs && d2 in discs && d1.nome == d2.nome && d1.turma == d2.turma ==> d1 == d2
  }

  /** The subject of a class with a given name, if any (`Disciplina.objects.get(nome=..., turma=...)`). */
  function FindSubject(discs: seq<Disciplina>, nome: string, turma: int): (r: Option<Disciplina>)
    ensures r.Some? ==> r.value in discs && r.value.nome == nome && r.value.turma == turma
    ensures r.None? ==> forall d :: d in discs ==> !(d.nome == nome && d.turma == turma)
  {
    if discs == [] then None
    else if discs[0].nome == nome && discs[0].turma == turma then Some(discs[0])
    else FindSubject(discs[1..], nome, turma)
  }

  /** The teacher of the subject called `nome` in class `turma` teaches there at (dia, idx). */
  ghost predicate TaughtAt(discs: seq<Disciplina>, turma: int, nome: string, p: int) {
    nome != "" && exists d :: d in discs && d.nome == nome && d.turma == turma && d.professor == p
  }

  /**
   * The specification of the occupancy map: some class other than `current`
   * has, at (dia, idx), a non-empty name of one of its subjects taught by `p`.
   */
  ghost predicate Occupied(discs: seq<Disciplina>, grades: seq<GradeHorario>, current: int,
                           p: int, dia: string, idx: int)
  {
    exists g :: g in grades && g.turma != current && dia in Dias &&
      0 <= idx < |DayList(g.dados, dia)| && TaughtAt(discs, g.turma, DayList(g.dados, dia)[idx], p)
  }

  /** `prof_id in ocupados and (dia, i) in ocupados[prof_id]`. */
  predicate Busy(oc: Occupancy, p: int, dia: string, idx: int) {
    p in oc && (dia, idx) in oc[p]
  }

  /** The (teacher, position) pairs an occupancy map holds. */
  function Pairs(oc: Occupancy): set<(int, Slot)> {
    set p, s | p in oc && s in oc[p] :: (p, s)
  }

  /** The mark one non-empty cell of another class contributes. */
  function CellMark(discs: seq<Disciplina>, turma: int, dia: string, idx: int, nome: string): set<(int, Slot)> {
    if nome == "" then {}
    else
      match FindSubject(discs, nome, turma)
      case None => {}
      case Some(d) => {(d.professor, (dia, idx))}
  }

  /** The marks of the first `n` cells of one day's list. */
  function ListMarks(discs: seq<Disciplina>, turma: int, dia: string, lista: seq<string>, n: nat): set<(int, Slot)>
    requires n <= |lista|
  {
    if n == 0 then {}
    else ListMarks(discs, turma, dia, lista, n - 1) + CellMark(discs, turma, dia, n - 1, lista[n - 1])
  }

  /** The marks of the first `k` weekdays of one grid. */
  function DayMarks(discs: seq<Disciplina>, g: GradeHorario, k: nat): set<(int, Slot)>
    requires k <= |Dias|
  {
    if k == 0 then {}
    else
      var lista := DayList(g.dados, Dias[k - 1]);
      DayMarks(discs, g, k - 1) + ListMarks(discs, g.turma, Dias[k - 1], lista, |lista|)
  }

  /** The marks of the first `n` grids, skipping the current class. */
  function AllMarks(discs: seq<Disciplina>, grades: seq<GradeHorario>, current: int, n: nat): set<(int, Slot)>
    requires n <= |grades|
  {
    if n == 0 then {}
    else AllMarks(discs, grades, current, n - 1) +
         (if grades[n - 1].turma != current then DayMarks(discs, grades[n - 1], |Dias|) else {})
  }

  lemma {:induction false} ListMarksSpec(discs: seq<Disciplina>, turma: int, dia: string, lista: seq<string>,
                                         n: nat, p: int, dia': string, idx: int)
    requires UniqueSubjects(discs) && n <= |lista|
    ensures (p, (dia', idx)) in ListMarks(discs, turma, dia, lista, n) <==>
              dia' == dia && 0 <= idx < n && TaughtAt(discs, turma, lista[idx], p)
  {
    if n > 0 {
      ListMarksSpec(discs, turma, dia, lista, n - 1, p, dia', idx);
      var nome := lista[n - 1];
      if nome != "" {
        match FindSubject(discs, nome, turma)
        case None =>
        case Some(d0) =>
          if TaughtAt(discs, turma, nome, p) {
            var d :| d in discs && d.nome == nome && d.turma == turma && d.professor == p;
            assert d == d0;
          }
      }
    }
  }

  lemma {:induction false} DayMarksSpec(discs: seq<Disciplina>, g: GradeHorario, k: nat, p: int, dia: string, idx: int)
    requires UniqueSubjects(discs) && k <= |Dias|
    ensures (p, (dia, idx)) in DayMarks(discs, g, k) <==>
              dia in Dias[..k] && 0 <= idx < |DayList(g.dados, dia)| &&
              TaughtAt(discs, g.turma, DayList(g.dados, dia)[idx], p)
  {
    if k > 0 {
      DayMarksSpec(discs, g, k - 1, p, dia, idx);
      var lista := DayList(g.dados, Dias[k - 1]);
      ListMarksSpec(discs, g.turma, Dias[k - 1], lista, |lista|, p, dia, idx);
      assert Dias[..k] == Dias[..k - 1] + [Dias[k - 1]];
    }
  }

  lemma {:induction false} AllMarksSpec(discs: seq<Disciplina>, grades: seq<GradeHorario>, current: int, n: nat,
                                        p: int, dia: string, idx: int)
    requires UniqueSubjects(discs) && n <= |grades|
    ensures (p, (dia, idx)) in AllMarks(discs, grades, current, n) <==>
              Occupied(discs, grades[..n], current, p, dia, idx)
  {
    if n > 0 {
      AllMarksSpec(discs, grades, current, n - 1, p, dia, idx);
      var g := grades[n - 1];
      DayMarksSpec(discs, g, |Dias|, p, dia, idx);
      assert Dias[..|Dias|] == Dias;
      assert grades[..n] == grades[..n - 1] + [g];
      if Occupied(discs, grades[..n], current, p, dia, idx) && !Occupied(discs, grades[..n - 1], current, p, dia, idx) {
        var g' :| g' in grades[..n] && g'.turma != current && dia in Dias &&
          0 <= idx < |DayList(g'.dados, dia)| && TaughtAt(discs, g'.turma, DayList(g'.dados, dia)[idx], p);
        assert g' == g;
      }
    } else {
      assert grades[..0] == [];
    }
  }

  /** Adding one position for one teacher adds exactly that pair. */
  lemma PairsAdd(oc: Occupancy, p: int, s: Slot)
    ensures Pairs(oc[p := (if p in oc then oc[p] else {}) + {s}]) == Pairs(oc) + {(p, s)}
  {
    var oc' := oc[p := (if p in oc then oc[p] else {}) + {s}];
    forall x | x in Pairs(oc')
      ensures x in Pairs(oc) + {(p, s)}
    {
      var q, t := x.0, x.1;
      assert q in oc' && t in oc'[q];
      if q != p || t != s {
        assert q in oc && t in oc[q];
      }
    }
    forall x | x in Pairs(oc) + {(p, s)}
      ensures x in Pairs(oc')
    {
      var q, t := x.0, x.1;
      assert q in oc' && t in oc'[q];
    }
  }

  /**
   * The teacher-occupancy map, built from every other class's grid: a teacher
   * is busy at a position exactly when the specification says so.
   */
  method BuildOccupancy(discs: seq<Disciplina>, grades: seq<GradeHorario>, current: int) returns (ocupados: Occupancy)
    requires UniqueSubjects(discs)
    ensures forall p :: p in ocupados ==> ocupados[p] != {}
    ensures forall p, dia, idx :: Busy(ocupados, p, dia, idx) <==> Occupied(discs, grades, current, p, dia, idx)
  {
    ocupados := map[];
    var gi := 0;
    while gi < |grades|
      invariant 0 <= gi <= |grades|
      invariant forall p :: p in ocupados ==> ocupados[p] != {}
      invariant Pairs(ocupados) == AllMarks(discs, grades, current, gi)
    {
      var g := grades[gi];
      if g.turma != current {
        ocupados := MarkGrid(discs, g, ocupados);
      }
      gi := gi + 1;
    }
    PairsAreOccupancy(ocupados, discs, grades, current);
  }

  /** The loop over the weekdays of one other class's grid. */
  method MarkGrid(discs: seq<Disciplina>, g: GradeHorario, oc: Occupancy) returns (ocupados: Occupancy)
    requires forall p :: p in oc ==> oc[p] != {}
    ensures forall p :: p in ocupados ==> ocupados[p] != {}
    ensures Pairs(ocupados) == Pairs(oc) + DayMarks(discs, g, |Dias|)
  {
    ocupados := oc;
    var di := 0;
    while di < |Dias|
      invariant 0 <= di <= |Dias|
      invariant forall p :: p in ocupados ==> ocupados[p] != {}
      invariant Pairs(ocupados) == Pairs(oc) + DayMarks(discs, g, di)
    {
      var dia := Dias[di];
      ocupados := MarkList(discs, g.turma, dia, DayList(g.dados, dia), ocupados);
      di := di + 1;
    }
  }

  /** The loop over the cells of one weekday: `ocupados[prof].add((dia, idx))` for every cell naming a subject. */
  method MarkList(discs: seq<Disciplina>, turma: int, dia: string, lista: seq<string>, oc: Occupancy)
    returns (ocupados: Occupancy)
    requires forall p :: p in oc ==> oc[p] != {}
    ensures forall p :: p in ocupados ==> ocupados[p] != {}
    ensures Pairs(ocupados) == Pairs(oc) + ListMarks(discs, turma, dia, lista, |lista|)
  {
    ocupados := oc;
    var idx := 0;
    while idx < |lista|
      invariant 0 <= idx <= |lista|
      invariant forall p :: p in ocupados ==> ocupados[p] != {}
      invariant Pairs(ocupados) == Pairs(oc) + ListMarks(discs, turma, dia, lista, idx)
    {
      var nome := lista[idx];
      if nome != "" {
        var disc := FindSubject(discs, nome, turma);
        if disc.Some? {
          var prof := disc.value.professor;
          PairsAdd(ocupados, prof, (dia, idx));
          if prof !in ocupados {
            ocupados := ocupados[prof := {}];
          }
          ocupados := ocupados[prof := ocupados[prof] + {(dia, idx)}];
        }
      }
      idx := idx + 1;
    }
  }

  /** A map whose pairs are all the marks of the other classes' grids holds exactly the occupied positions. */
  lemma PairsAreOccupancy(oc: Occupancy, discs: seq<Disciplina>, grades: seq<GradeHorario>, current: int)
    requires UniqueSubjects(discs)
    requires Pairs(oc) == AllMarks(discs, grades, current, |grades|)
    ensures forall p, dia, idx :: Busy(oc, p, dia, idx) <==> Occupied(discs, grades, current, p, dia, idx)
  {
    forall p, dia, idx
      ensures Busy(oc, p, dia, idx) <==> Occupied(discs, grades, current, p, dia, idx)
    {
      AllMarksSpec(discs, grades, current, |grades|, p, dia, idx);
      assert grades[..|grades|] == grades;
      assert Busy(oc, p, dia, idx) <==> (p, (dia, idx)) in Pairs(oc);
    }
  }

  // ---------------------------------------------------------------- cell filter

  /** The subjects offered in cell (dia, i): those whose teacher is not busy there, in their original order. */
  function Available(discs: seq<Disciplina>, oc: Occupancy, dia: string, i: int): (r: seq<Disciplina>)
    ensures forall d :: d in r <==> d in discs && !Busy(oc, d.professor, dia, i)
  {
    if discs == [] then []
    else
      var init, last := discs[..|discs| - 1], discs[|discs| - 1];
      assert discs == init + [last];
      Available(init, oc, dia, i) + (if Busy(oc, last.professor, dia, i) then [] else [last])
  }

  /** The filter keeps the order of the subjects: filtering a concatenation concatenates the filtered parts. */
  lemma {:induction false} AvailableConcat(a: seq<Disciplina>, b: seq<Disciplina>, oc: Occupancy, dia: string, i: int)
    ensures Available(a + b, oc, dia, i) == Available(a, oc, dia, i) + Available(b, oc, dia, i)
  {
    if b == [] {
      assert a + b == a;
    } else {
      var init := b[..|b| - 1];
      assert (a + b)[..|a + b| - 1] == a + init;
      assert b[..|b| - 1] == init;
      AvailableConcat(a, init, oc, dia, i);
    }
  }

  /** The subjects whose teacher the specification says is free at (dia, i), in order. */
  ghost function FreeSubjects(discsTurma: seq<Disciplina>, discs: seq<Disciplina>, grades: seq<GradeHorario>,
                              current: int, dia: string, i: int): seq<Disciplina>
  {
    if discsTurma == [] then []
    else
      var init, last := discsTurma[..|discsTurma| - 1], discsTurma[|discsTurma| - 1];
      FreeSubjects(init, discs, grades, current, dia, i) +
      (if Occupied(discs, grades, current, last.professor, dia, i) then [] else [last])
  }

  /** Filtering by a correct occupancy map is filtering by the specification. */
  lemma {:induction false} AvailableIsFree(discsTurma: seq<Disciplina>, oc: Occupancy, discs: seq<Disciplina>,
                                           grades: seq<GradeHorario>, current: int, dia: string, i: int)
    requires forall p, dia', idx :: Busy(oc, p, dia', idx) <==> Occupied(discs, grades, current, p, dia', idx)
    ensures Available(discsTurma, oc, dia, i) == FreeSubjects(discsTurma, discs, grades, current, dia, i)
  {
    if discsTurma != [] {
      AvailableIsFree(discsTurma[..|discsTurma| - 1], oc, discs, grades, current, dia, i);
    }
  }

  /** The loop that collects the subjects offered in one cell. */
  method AvailableSubjects(discs: seq<Disciplina>, oc: Occupancy, dia: string, i: int) returns (r: seq<Disciplina>)
    ensures r == Available(discs, oc, dia, i)
  {
    r := [];
    var k := 0;
    while k < |discs|
      invariant 0 <= k <= |discs|
      invariant r == Available(discs[..k], oc, dia, i)
    {
      var d := discs[k];
      assert discs[..k + 1][..k] == discs[..k];
      if !Busy(oc, d.professor, dia, i) {
        r := r + [d];
      }
      k := k + 1;
    }
    assert discs[..k] == discs;
  }

  // ---------------------------------------------------------------- display table

  datatype Col = Col(dia: string, valor: string, disciplinas: seq<Disciplina>)

  datatype Row = Row(index: int, horario: string, cols: seq<Col>)

  /** The column of one weekday in row `i`. */
  function ColAt(dados: Grid, discs: seq<Disciplina>, oc: Occupancy, dia: string, i: int): Col {
    Col(dia, CellValue(dados, dia, i), Available(discs, oc, dia, i))
  }

  /** One row per time slot, each with one column per weekday, each column with its value and offered subjects. */
  method BuildRows(horarios: seq<string>, dados: Grid, discs: seq<Disciplina>, oc: Occupancy) returns (rows: seq<Row>)
    ensures |rows| == |horarios|
    ensures forall i :: 0 <= i < |rows| ==>
              rows[i].index == i && rows[i].horario == horarios[i] && |rows[i].cols| == |Dias| &&
              forall j :: 0 <= j < |Dias| ==> rows[i].cols[j] == ColAt(dados, discs, oc, Dias[j], i)
  {
    rows := [];
    var i := 0;
    while i < |horarios|
      invariant 0 <= i <= |horarios|
      invariant |rows| == i
      invariant forall k :: 0 <= k < i ==>
                  rows[k].index == k && rows[k].horario == horarios[k] && |rows[k].cols| == |Dias| &&
                  forall j :: 0 <= j < |Dias| ==> rows[k].cols[j] == ColAt(dados, discs, oc, Dias[j], k)
    {
      var cols: seq<Col> := [];
      var j := 0;
      while j < |Dias|
        invariant 0 <= j <= |Dias|
        invariant |cols| == j
        invariant forall m :: 0 <= m < j ==> cols[m] == ColAt(dados, discs, oc, Dias[m], i)
      {
        var dia := Dias[j];
        var lista := DayList(dados, dia);
        var valor := "";
        if i < |lista| {
          valor := lista[i];
        }
        var disponiveis := AvailableSubjects(discs, oc, dia, i);
        cols := cols + [Col(dia, valor, disponiveis)];
        j := j + 1;
      }
      rows := rows + [Row(i, horarios[i], cols)];
      i := i + 1;
    }
  }

  // ---------------------------------------------------------------- submitted grid

  /** `request.POST.get(campo, "")`. */
  function PostGet(post: PostData, campo: string): string {
    if campo in post then post[campo] else ""
  }

  /** The form field of cell (dia, i): `f"{dia}_{i}"`. */
  function FieldName(dia: string, i: int): string {
    dia + "_" + Text.IntToString(i)
  }

  /** Each entry of a weekday's list is the submitted value of its field. */
  ghost predicate Filled(post: PostData, dia: string, lista: seq<string>) {
    forall k :: 0 <= k < |lista| ==> lista[k] == PostGet(post, FieldName(dia, k))
  }

  lemma FilledAppend(post: PostData, dia: string, lista: seq<string>)
    requires Filled(post, dia, lista)
    ensures Filled(post, dia, lista + [PostGet(post, FieldName(dia, |lista|))])
  {
  }

  /** Every weekday's list has `i` entries, each the submitted value of its field. */
  ghost predicate SubmittedUpTo(post: PostData, newData: Grid, i: nat) {
    newData.Keys == (set d | d in Dias) &&
    forall d :: d in newData ==> |newData[d]| == i && Filled(post, d, newData[d])
  }

  /** The grid rebuilt from the submitted fields: the five weekdays, `n` entries each, absent fields read as "". */
  method SubmittedGrid(post: PostData, n: nat) returns (newData: Grid)
    ensures newData.Keys == set d | d in Dias
    ensures forall d :: d in newData ==>
              |newData[d]| == n && forall i :: 0 <= i < n ==> newData[d][i] == PostGet(post, FieldName(d, i))
  {
    newData := map d | d in Dias :: [];
    var i := 0;
    while i < n
      invariant 0 <= i <= n
      invariant SubmittedUpTo(post, newData, i)
    {
      newData := AppendSlot(post, newData, i);
      i := i + 1;
    }
  }

  /** The inner loop of the rebuild: `new_data[dia].append(request.POST.get(f"{dia}_{i}", ""))` for each weekday. */
  method AppendSlot(post: PostData, data: Grid, i: nat) returns (newData: Grid)
    requires SubmittedUpTo(post, data, i)
    ensures SubmittedUpTo(post, newData, i + 1)
  {
    DiasDistinct();
    newData := data;
    var j := 0;
    while j < |Dias|
      invariant 0 <= j <= |Dias|
      invariant newData.Keys == data.Keys
      invariant forall m :: 0 <= m < |Dias| ==>
                  |newData[Dias[m]]| == (if m < j then i + 1 else i) && Filled(post, Dias[m], newData[Dias[m]])
    {
      var dia := Dias[j];
      var valor := PostGet(post, FieldName(dia, i));
      FilledAppend(post, dia, newData[dia]);
      newData := newData[dia := newData[dia] + [valor]];
      j := j + 1;
    }
    forall d | d in newData
      ensures |newData[d]| == i + 1 && Filled(post, d, newData[d])
    {
      var m :| 0 <= m < |Dias| && Dias[m] == d;
    }
  }

  lemma DiasDistinct()
    ensures forall a, b :: 0 <= a < |Dias| && 0 <= b < |Dias| && a != b ==> Dias[a] != Dias[b]
  {
  }

  // ---------------------------------------------------------------- storage

  /** At most one timetable record per class (a one-to-one relation). */
  ghost predicate UniqueGrids(store: seq<GradeHorario>) {
    forall i, j :: 0 <= i < |store| && 0 <= j < |store| && store[i].turma == store[j].turma ==> i == j
  }

  /** The stored grid of a class, if it has a timetable record. */
  function GridOf(store: seq<GradeHorario>, turma: int): (r: Option<Grid>)
    ensures r.Some? <==> exists g :: g in store && g.turma == turma
    ensures r.Some? ==> GradeHorario(turma, r.value) in store
  {
    if store == [] then None
    else if store[0].turma == turma then Some(store[0].dados)
    else GridOf(store[1..], turma)
  }

  /** Saving the grid of one class: its record is replaced, or created when it has none. */
  function SaveGrid(store: seq<GradeHorario>, turma: int, dados: Grid): (r: seq<GradeHorario>)
    ensures GradeHorario(turma, dados) in r
    ensures |store| <= |r| <= |store| + 1
  {
    if store == [] then [GradeHorario(turma, dados)]
    else if store[0].turma == turma then [GradeHorario(turma, dados)] + store[1..]
    else [store[0]] + SaveGrid(store[1..], turma, dados)
  }

  /** After saving, the class finds the saved grid and every other class finds the grid it had. */
  lemma {:induction false} SaveGridLookup(store: seq<GradeHorario>, turma: int, dados: Grid)
    ensures GridOf(SaveGrid(store, turma, dados), turma) == Some(dados)
    ensures forall t :: t != turma ==> GridOf(SaveGrid(store, turma, dados), t) == GridOf(store, t)
  {
    if store != [] && store[0].turma != turma {
      SaveGridLookup(store[1..], turma, dados);
    }
  }

  /** Saving neither drops nor adds a record of any other class. */
  lemma {:induction false} SaveGridKeepsOthers(store: seq<GradeHorario>, turma: int, dados: Grid, g: GradeHorario)
    requires g.turma != turma
    ensures g in SaveGrid(store, turma, dados) <==> g in store
  {
    if store != [] {
      if store[0].turma == turma {
        assert store == [store[0]] + store[1..];
      } else {
        SaveGridKeepsOthers(store[1..], turma, dados, g);
        assert store == [store[0]] + store[1..];
      }
    }
  }

  /** Saving keeps one record per class. */
  lemma {:induction false} SaveGridUnique(store: seq<GradeHorario>, turma: int, dados: Grid)
    requires UniqueGrids(store)
    ensures UniqueGrids(SaveGrid(store, turma, dados))
  {
    var r := SaveGrid(store, turma, dados);
    if store != [] && store[0].turma != turma {
      var rest := store[1..];
      assert UniqueGrids(rest) by {
        forall i, j | 0 <= i < |rest| && 0 <= j < |rest| && rest[i].turma == rest[j].turma ensures i == j {
          assert store[i + 1] == rest[i] && store[j + 1] == rest[j];
        }
      }
      SaveGridUnique(rest, turma, dados);
      forall j | 0 <= j < |SaveGrid(rest, turma, dados)| ensures SaveGrid(rest, turma, dados)[j].turma != store[0].turma {
        var g := SaveGrid(rest, turma, dados)[j];
        if g.turma != turma {
          SaveGridKeepsOthers(rest, turma, dados, g);
          var m :| 0 <= m < |rest| && rest[m] == g;
          assert store[m + 1] == g;
        }
      }
      assert r == [store[0]] + SaveGrid(rest, turma, dados);
    } else if store != [] {
      forall i | 0 < i < |r| ensures r[i].turma != turma {
        assert r[i] == store[i];
      }
      forall i, j | 0 <= i < |r| && 0 <= j < |r| && r[i].turma == r[j].turma ensures i == j {
        if i > 0 && j > 0 {
          assert r[i] == store[i] && r[j] == store[j];
        }
      }
    }
  }

  /** Saving the grid of one class: its grid is the new one, no other class's grid or record changes, one record per class remains. */
  lemma SaveGridSpec(store: seq<GradeHorario>, turma: int, dados: Grid)
    requires UniqueGrids(store)
    ensures UniqueGrids(SaveGrid(store, turma, dados))
    ensures GridOf(SaveGrid(store, turma, dados), turma) == Some(dados)
    ensures forall t :: t != turma ==> GridOf(SaveGrid(store, turma, dados), t) == GridOf(store, t)
    ensures forall g: GradeHorario :: g.turma != turma ==> (g in SaveGrid(store, turma, dados) <==> g in store)
  {
    SaveGridUnique(store, turma, dados);
    SaveGridLookup(store, turma, dados);
    forall g: GradeHorario | g.turma != turma ensures g in SaveGrid(store, turma, dados) <==> g in store {
      SaveGridKeepsOthers(store, turma, dados, g);
    }
  }

  // ---------------------------------------------------------------- the view

  datatype Page = Page(invalidShift: bool, nomesDias: seq<string>, rows: seq<Row>, disciplinas: seq<Disciplina>)

  datatype Response = Redirect | Render(page: Page)

  /** `Disciplina.objects.filter(turma=turma)`, in order. */
  function ClassSubjects(discs: seq<Disciplina>, turma: int): (r: seq<Disciplina>)
    ensures forall d :: d in r <==> d in discs && d.turma == turma
  {
    if discs == [] then []
    else (if discs[0].turma == turma then [discs[0]] else []) + ClassSubjects(discs[1..], turma)
  }

  /**
   * One request to the timetable page of class `turma`. `post` is the submitted
   * form, or `None` for a page view. On a submission only this class's grid is
   * replaced, by the submitted grid as it is (no conflict is re-checked); on a
   * page view the grid is initialised when empty and every cell offers exactly
   * the class's subjects whose teacher is free there.
   */
  method GradeHoraria(turma: Turma, discs: seq<Disciplina>, store: seq<GradeHorario>, post: Option<PostData>)
    returns (store': seq<GradeHorario>, resp: Response)
    requires UniqueSubjects(discs) && UniqueGrids(store)
    ensures UniqueGrids(store')
    ensures forall t :: t != turma.id ==> GridOf(store', t) == GridOf(store, t)
    ensures GridOf(store', turma.id).Some?
    ensures post.Some? ==>
              resp == Redirect &&
              var g := GridOf(store', turma.id).value;
              g.Keys == (set d | d in Dias) &&
              forall d :: d in g ==>
                |g[d]| == |SlotsFor(turma.turno)| &&
                forall i :: 0 <= i < |g[d]| ==> g[d][i] == PostGet(post.value, FieldName(d, i))
    ensures post.None? ==>
              var before := if GridOf(store, turma.id).Some? then GridOf(store, turma.id).value else map[];
              var dados := InitGrid(before, |SlotsFor(turma.turno)|);
              var slots := SlotsFor(turma.turno);
              var mine := ClassSubjects(discs, turma.id);
              GridOf(store', turma.id) == Some(dados) &&
              resp.Render? && resp.page.invalidShift == InvalidShift(turma.turno) &&
              resp.page.disciplinas == mine &&
              |resp.page.rows| == |slots| &&
              forall i :: 0 <= i < |slots| ==>
                resp.page.rows[i].index == i && resp.page.rows[i].horario == slots[i] &&
                |resp.page.rows[i].cols| == |Dias| &&
                forall j :: 0 <= j < |Dias| ==>
                  resp.page.rows[i].cols[j].dia == Dias[j] &&
                  resp.page.rows[i].cols[j].valor == CellValue(dados, Dias[j], i) &&
                  resp.page.rows[i].cols[j].disciplinas == FreeSubjects(mine, discs, store', turma.id, Dias[j], i)
  {
    var horarios := SlotsFor(turma.turno);
    var invalid := InvalidShift(turma.turno);
    var existing := GridOf(store, turma.id);
    var dados: Grid := if existing.Some? then existing.value else map[];
    var st := store;
    if existing.None? || dados == map[] {
      dados := InitGrid(dados, |horarios|);
      st := SaveGrid(store, turma.id, dados);
      SaveGridSpec(store, turma.id, dados);
    }
    var mine := ClassSubjects(discs, turma.id);
    var ocupados := BuildOccupancy(discs, st, turma.id);
    if post.Some? {
      var newData := SubmittedGrid(post.value, |horarios|);
      store' := SaveGrid(st, turma.id, newData);
      SaveGridSpec(st, turma.id, newData);
      resp := Redirect;
    } else {
      var rows := BuildRows(horarios, dados, mine, ocupados);
      store' := st;
      resp := Render(Page(invalid, NomesDias, rows, mine));
      forall j, i | 0 <= j < |Dias| && 0 <= i < |horarios|
        ensures Available(mine, ocupados, Dias[j], i) == FreeSubjects(mine, discs, store', turma.id, Dias[j], i)
      {
        AvailableIsFree(mine, ocupados, discs, store', turma.id, Dias[j], i);
      }
    }
  }
}
