/**
 * The records of the school database (classes, subjects, grades and the
 * weekly timetable of a class) and the grade average of a student in a
 * subject.
 */
module Models {
  import opened Wrappers

  /** A class ("turma") of one academic year and shift. */
  datatype Turma = Turma(id: int, nome: string, turno: string, ano: int)

  /** A subject ("disciplina"), taught by one teacher to one class; both are referenced by id. */
  datatype Disciplina = Disciplina(id: int, nome: string, professor: int, turma: int)

  /** The up to four bimester grades of one student in one subject; `None` is a grade not entered yet. */
  datatype Nota = Nota(aluno: int, disciplina: int,
                       nota1: Option<real>, nota2: Option<real>, nota3: Option<real>, nota4: Option<real>)

  /** The stored timetable: weekday key to the subject name of each time slot ("" is a free slot). */
  type Grid = map<string, seq<string>>

  /** The timetable record of one class. */
  datatype GradeHorario = GradeHorario(turma: int, dados: Grid)

  /** The shift choices of a class, stored key then display label. */
  const TurnoChoices: seq<(string, string)> := [("manha", "Manhã"), ("tarde", "Tarde"), ("noite", "Noite")]

  const DefaultTurno: string := "manha"

  /** The four bimester grades, in order. */
  function Bimestres(n: Nota): seq<Option<real>> {
    [n.nota1, n.nota2, n.nota3, n.nota4]
  }

  /** The grades that were entered, in order (the list comprehension that drops `None`). */
  function Recorded(gs: seq<Option<real>>): (r: seq<real>)
    ensures |r| <= |gs|
    ensures forall x :: x in r <==> Some(x) in gs
    ensures r == [] <==> forall k :: 0 <= k < |gs| ==> gs[k].None?
  {
    if gs == [] then []
    else
      assert forall x :: Some(x) in gs <==> gs[0] == Some(x) || Some(x) in gs[1..];
      (if gs[0].Some? then [gs[0].value] else []) + Recorded(gs[1..])
  }

  function Sum(s: seq<real>): real {
    if s == [] then 0.0 else s[0] + Sum(s[1..])
  }

  /** `sum(notas) / len(notas) if notas else None`. */
  function Average(notas: seq<real>): Option<real> {
    if |notas| > 0 then Some(Sum(notas) / |notas| as real) else None
  }

  /** The average of the grades that were entered. */
  function Mean(gs: seq<Option<real>>): Option<real> {
    Average(Recorded(gs))
  }

  /** `Nota.media`: no average exactly when no bimester grade was entered. */
  function Media(n: Nota): (r: Option<real>)
    ensures r.None? <==> n.nota1.None? && n.nota2.None? && n.nota3.None? && n.nota4.None?
  {
    var gs := Bimestres(n);
    assert gs[0] == n.nota1 && gs[1] == n.nota2 && gs[2] == n.nota3 && gs[3] == n.nota4;
    Mean(gs)
  }

  /** Count of entered grades. */
  function CountRecorded(gs: seq<Option<real>>): nat {
    if gs == [] then 0 else (if gs[0].Some? then 1 else 0) + CountRecorded(gs[1..])
  }

  lemma {:induction false} RecordedConcat(a: seq<Option<real>>, b: seq<Option<real>>)
    ensures Recorded(a + b) == Recorded(a) + Recorded(b)
  {
    if a == [] {
      assert a + b == b;
    } else {
      assert (a + b)[1..] == a[1..] + b;
      RecordedConcat(a[1..], b);
    }
  }

  lemma {:induction false} CountIsLength(gs: seq<Option<real>>)
    ensures CountRecorded(gs) == |Recorded(gs)|
  {
    if gs != [] {
      CountIsLength(gs[1..]);
    }
  }

  /** A grade that was not entered contributes to neither the sum nor the count: inserting one anywhere changes nothing. */
  lemma MeanIgnoresMissing(gs: seq<Option<real>>, i: nat)
    requires i <= |gs|
    ensures Mean(gs[..i] + [None] + gs[i..]) == Mean(gs)
  {
    RecordedIgnoresMissing(gs[..i], gs[i..]);
    assert gs[..i] + gs[i..] == gs;
  }

  lemma RecordedIgnoresMissing(a: seq<Option<real>>, b: seq<Option<real>>)
    ensures Recorded(a + [None] + b) == Recorded(a + b)
  {
    var none: seq<Option<real>> := [None];
    assert Recorded(none) == [] by {
      assert none[1..] == [];
    }
    RecordedConcat(a + none, b);
    RecordedConcat(a, none);
    RecordedConcat(a, b);
  }

  /** The mean is the sum of the entered grades divided by how many were entered. */
  lemma MeanOfRecorded(gs: seq<Option<real>>)
    ensures CountRecorded(gs) == 0 ==> Mean(gs) == None
    ensures CountRecorded(gs) > 0 ==> Mean(gs) == Some(Sum(Recorded(gs)) / CountRecorded(gs) as real)
  {
    CountIsLength(gs);
  }

  lemma {:induction false} SumBounds(s: seq<real>, lo: real, hi: real)
    requires forall x :: x in s ==> lo <= x <= hi
    ensures |s| as real * lo <= Sum(s) <= |s| as real * hi
  {
    if s != [] {
      assert s[0] in s;
      assert forall x :: x in s[1..] ==> x in s;
      SumBounds(s[1..], lo, hi);
    }
  }

  /** Any bounds on every entered grade also bound the average. */
  lemma MeanWithinBounds(gs: seq<Option<real>>, lo: real, hi: real)
    requires forall x :: x in Recorded(gs) ==> lo <= x <= hi
    ensures Mean(gs).Some? ==> lo <= Mean(gs).value <= hi
  {
    AverageWithinBounds(Recorded(gs), lo, hi);
  }

  lemma AverageWithinBounds(s: seq<real>, lo: real, hi: real)
    requires forall x :: x in s ==> lo <= x <= hi
    ensures Average(s).Some? ==> lo <= Average(s).value <= hi
  {
    if |s| > 0 {
      SumBounds(s, lo, hi);
      QuotientBounds(Sum(s), |s| as real, lo, hi);
    }
  }

  lemma QuotientBounds(total: real, n: real, lo: real, hi: real)
    requires n > 0.0 && n * lo <= total <= n * hi
    ensures lo <= total / n <= hi
  {
    var m := total / n;
    assert total == m * n;
    assert (m - lo) * n == total - lo * n;
    assert (hi - m) * n == hi * n - total;
  }

  function Min(s: seq<real>): (r: real)
    requires s != []
    ensures r in s && forall x :: x in s ==> r <= x
  {
    if |s| == 1 then s[0]
    else
      var m := Min(s[1..]);
      assert forall x :: x in s ==> x == s[0] || x in s[1..];
      if s[0] <= m then s[0] else m
  }

  function Max(s: seq<real>): (r: real)
    requires s != []
    ensures r in s && forall x :: x in s ==> x <= r
  {
    if |s| == 1 then s[0]
    else
      var m := Max(s[1..]);
      assert forall x :: x in s ==> x == s[0] || x in s[1..];
      if s[0] >= m then s[0] else m
  }

  /** The average of a student's grades lies between the lowest and the highest grade entered. */
  lemma MediaBetweenMinAndMax(n: Nota)
    requires Media(n).Some?
    ensures Min(Recorded(Bimestres(n))) <= Media(n).value <= Max(Recorded(Bimestres(n)))
  {
    var s := Recorded(Bimestres(n));
    MeanWithinBounds(Bimestres(n), Min(s), Max(s));
  }

  /** With exactly one grade entered, the average is that grade. */
  lemma MediaOfSingleGrade(n: Nota)
    requires |Recorded(Bimestres(n))| == 1
    ensures Media(n) == Some(Recorded(Bimestres(n))[0])
  {
    var s := Recorded(Bimestres(n));
    assert s[1..] == [];
    assert Sum(s) == s[0];
  }
}
