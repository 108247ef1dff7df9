/**
 * The validators of the registration and profile forms: the CEP format,
 * the password pairs of the manager, teacher, student and profile forms,
 * the uniqueness of e-mail and CPF, the required flags of the manager form
 * and what saving a manager writes into the linked login account.
 */
module Forms {
  import opened Wrappers
  import Text

  /** `cleaned_data.get(name)` of a text field: absent, or the cleaned text. */
  type Field = Option<string>

  /** Python's `not value` on such a field. */
  predicate Blank(v: Field) {
    v.None? || v.value == ""
  }

  /** Python's truth value of a primary key: absent and 0 are false. */
  predicate HasPk(pk: Option<int>) {
    pk.Some? && pk.value != 0
  }

  // ---------------------------------------------------------------- CEP

  const CepInvalido: string := "Informe um CEP válido."

  /** `clean_cep`: the CEP with its dashes removed must be eight digits; the value is kept as typed. */
  function CleanCep(cep: string): (r: Result<string, string>)
    ensures r.Success? ==> r.value == cep
    ensures r.Failure? ==> r.error == CepInvalido
  {
    var numeros := Text.RemoveChar(cep, '-');
    if |numeros| != 8 || !Text.IsDigitString(numeros) then Failure(CepInvalido) else Success(cep)
  }

  lemma {:induction false} RemoveDashOfDigits(d: string)
    requires Text.AllDigits(d)
    ensures Text.RemoveChar(d, '-') == d
  {
    if d != [] {
      assert Text.IsAsciiDigit(d[0]);
      RemoveDashOfDigits(d[1..]);
    }
  }

  /** Eight digits are a valid CEP, with or without the dash after the fifth. */
  lemma CepFormatsAccepted(d: string)
    requires |d| == 8 && Text.AllDigits(d)
    ensures CleanCep(d) == Success(d)
    ensures CleanCep(d[..5] + "-" + d[5..]) == Success(d[..5] + "-" + d[5..])
  {
    RemoveDashOfDigits(d);
    RemoveDashOfDigits(d[..5]);
    RemoveDashOfDigits(d[5..]);
    Text.RemoveCharConcat(d[..5] + "-", d[5..], '-');
    Text.RemoveCharConcat(d[..5], "-", '-');
    assert Text.RemoveChar("-", '-') == [];
    assert d[..5] + d[5..] == d;
  }

  /** Dashes may stand anywhere: inserting one never changes the verdict. */
  lemma CepIgnoresDashes(a: string, b: string)
    ensures CleanCep(a + "-" + b).Success? == CleanCep(a + b).Success?
  {
    Text.RemoveCharConcat(a + "-", b, '-');
    Text.RemoveCharConcat(a, "-", '-');
    Text.RemoveCharConcat(a, b, '-');
    assert Text.RemoveChar("-", '-') == [];
    assert Text.RemoveChar(a + "-" + b, '-') == Text.RemoveChar(a + b, '-');
  }

  /** A character that is neither a digit nor a dash makes the CEP invalid. */
  lemma CepRejectsForeignChar(cep: string, k: nat)
    requires k < |cep| && !Text.IsAsciiDigit(cep[k]) && cep[k] != '-'
    ensures CleanCep(cep) == Failure(CepInvalido)
  {
    var numeros := Text.RemoveChar(cep, '-');
    assert cep[k] in cep;
    assert cep[k] in numeros;
  }

  /**
   * The exact condition a CEP must meet: only digits and dashes, and eight
   * characters once the dashes are left out.
   */
  lemma CepAcceptedExactly(cep: string)
    ensures CleanCep(cep).Success? <==>
              (forall i :: 0 <= i < |cep| ==> Text.IsAsciiDigit(cep[i]) || cep[i] == '-') &&
              |cep| - multiset(cep)['-'] == 8
  {
    var numeros := Text.RemoveChar(cep, '-');
    Text.RemoveCharCount(cep, '-');
    if forall i :: 0 <= i < |cep| ==> Text.IsAsciiDigit(cep[i]) || cep[i] == '-' {
      forall j | 0 <= j < |numeros| ensures Text.IsAsciiDigit(numeros[j]) {
        assert numeros[j] in numeros;
        var i :| 0 <= i < |cep| && cep[i] == numeros[j];
      }
    } else {
      var i :| 0 <= i < |cep| && !Text.IsAsciiDigit(cep[i]) && cep[i] != '-';
      CepRejectsForeignChar(cep, i);
    }
  }

  // ---------------------------------------------------------------- password pairs

  datatype SenhaError = SenhaIncompleta | SenhasDiferentes | SenhaFraca(mensagem: string)

  function SenhaMessage(e: SenhaError): string {
    match e
    case SenhaIncompleta => "Informe a senha e a confirmação."
    case SenhasDiferentes => "As senhas não coincidem."
    case SenhaFraca(mensagem) => mensagem
  }

  /**
   * `GestorForm.clean`: both passwords blank keeps the current one; otherwise
   * both are needed, must agree, and must pass the password rules
   * (`validar` stands for `validate_password`: the message it raises, if any).
   */
  function GestorClean(senha: Field, confirmacao: Field, validar: string -> Option<string>): (erro: Option<SenhaError>)
    ensures Blank(senha) && Blank(confirmacao) ==> erro == None
    ensures Blank(senha) != Blank(confirmacao) ==> erro == Some(SenhaIncompleta)
    ensures !Blank(senha) && !Blank(confirmacao) && senha.value != confirmacao.value ==> erro == Some(SenhasDiferentes)
    ensures !Blank(senha) && confirmacao == senha && validar(senha.value).Some? ==>
              erro == Some(SenhaFraca(validar(senha.value).value))
  {
    if Blank(senha) && Blank(confirmacao) then None
    else if Blank(senha) || Blank(confirmacao) then Some(SenhaIncompleta)
    else if senha.value != confirmacao.value then Some(SenhasDiferentes)
    else if validar(senha.value).Some? then Some(SenhaFraca(validar(senha.value).value))
    else None
  }

  /** The manager form accepts exactly no change of password, or a new one typed twice that passes the rules. */
  lemma GestorCleanAccepts(senha: Field, confirmacao: Field, validar: string -> Option<string>)
    ensures GestorClean(senha, confirmacao, validar) == None <==>
              (Blank(senha) && Blank(confirmacao)) ||
              (!Blank(senha) && confirmacao == senha && validar(senha.value).None?)
  {
  }

  datatype PerfilError = InformeSenhaAtual | SenhaAtualIncorreta | NovaSenhaIncompleta | NovasSenhasDiferentes

  function PerfilMessage(e: PerfilError): string {
    match e
    case InformeSenhaAtual => "Informe a senha atual."
    case SenhaAtualIncorreta => "Senha atual incorreta."
    case NovaSenhaIncompleta => "Preencha a nova senha e a confirmação."
    case NovasSenhasDiferentes => "As senhas não coincidem."
  }

  /**
   * `EditarPerfilForm.clean`: the password fields are checked only when one
   * of them is filled; `confere` stands for `check_password` on the account.
   */
  function EditarPerfilClean(atual: Field, nova: Field, confirmacao: Field, confere: string -> bool): (erro: Option<PerfilError>)
    ensures Blank(atual) && Blank(nova) && Blank(confirmacao) ==> erro == None
  {
    if Blank(atual) && Blank(nova) && Blank(confirmacao) then None
    else if Blank(atual) then Some(InformeSenhaAtual)
    else if !confere(atual.value) then Some(SenhaAtualIncorreta)
    else if Blank(nova) || Blank(confirmacao) then Some(NovaSenhaIncompleta)
    else if nova.value != confirmacao.value then Some(NovasSenhasDiferentes)
    else None
  }

  /**
   * The profile form's checks in their order: each error is reported exactly
   * when every earlier check passed and this one fails, and the form passes
   * exactly when nothing was typed or the current password is right and the
   * new one was typed twice.
   */
  lemma EditarPerfilOrder(atual: Field, nova: Field, confirmacao: Field, confere: string -> bool)
    ensures var erro := EditarPerfilClean(atual, nova, confirmacao, confere);
            var tentou := !(Blank(atual) && Blank(nova) && Blank(confirmacao));
            (erro == Some(InformeSenhaAtual) <==> tentou && Blank(atual)) &&
            (erro == Some(SenhaAtualIncorreta) <==> !Blank(atual) && !confere(atual.value)) &&
            (erro == Some(NovaSenhaIncompleta) <==>
               !Blank(atual) && confere(atual.value) && (Blank(nova) || Blank(confirmacao))) &&
            (erro == Some(NovasSenhasDiferentes) <==>
               !Blank(atual) && confere(atual.value) && !Blank(nova) && !Blank(confirmacao) &&
               nova.value != confirmacao.value) &&
            (erro == None <==>
               !tentou || (!Blank(atual) && confere(atual.value) && !Blank(nova) && confirmacao == nova))
  {
  }

  /** An error attached to one field with `add_error`. */
  datatype FieldError = FieldError(campo: string, mensagem: string)

  /** The field `ProfessorForm.clean` attaches its mismatch to. */
  const ProfessorConfirmacao: string := "confirmar_senha"

  /** The field `AlunoForm.clean` attaches its mismatch to. */
  const AlunoConfirmacao: string := "password_confirm"

  /**
   * `ProfessorForm.clean` and `AlunoForm.clean`, with `campo` the form's
   * confirmation field: a mismatch is flagged there exactly when both
   * passwords are filled and differ.
   */
  function PasswordsMismatch(senha: Field, confirmacao: Field, campo: string): (r: Option<FieldError>)
    ensures r.Some? <==> !Blank(senha) && !Blank(confirmacao) && senha.value != confirmacao.value
    ensures r.Some? ==> r.value == FieldError(campo, "As senhas não coincidem.")
  {
    if !Blank(senha) && !Blank(confirmacao) && senha.value != confirmacao.value then
      Some(FieldError(campo, "As senhas não coincidem."))
    else
      None
  }

  /**
   * The teacher and student forms flag exactly the mismatches the manager
   * form calls `SenhasDiferentes`; a pair with one side blank passes them
   * while the manager form rejects it as incomplete.
   */
  lemma MismatchAgreesWithGestor(senha: Field, confirmacao: Field, campo: string, validar: string -> Option<string>)
    ensures PasswordsMismatch(senha, confirmacao, campo).Some? <==>
              GestorClean(senha, confirmacao, validar) == Some(SenhasDiferentes)
    ensures Blank(senha) != Blank(confirmacao) ==>
              PasswordsMismatch(senha, confirmacao, campo) == None &&
              GestorClean(senha, confirmacao, validar) == Some(SenhaIncompleta)
  {
  }

  // ---------------------------------------------------------------- uniqueness of e-mail and CPF

  datatype UserRecord = UserRecord(pk: int, email: string)

  /** A record with a CPF: a manager or a student. */
  datatype CpfRecord = CpfRecord(pk: int, cpf: string)

  /**
   * Whether a record other than the excluded one has `value` in the field
   * `campo` (`filter(campo=value).exclude(pk=excluded).exists()`).
   */
  function Taken<R>(records: seq<R>, campo: R -> string, pk: R -> int, value: string, excluded: Option<int>): (r: bool)
    ensures r <==> exists k :: 0 <= k < |records| && campo(records[k]) == value && excluded != Some(pk(records[k]))
  {
    if records == [] then false
    else if campo(records[0]) == value && excluded != Some(pk(records[0])) then true
    else
      var r := Taken(records[1..], campo, pk, value, excluded);
      assert r ==> exists k :: 1 <= k < |records| && campo(records[k]) == value && excluded != Some(pk(records[k])) by {
        if r {
          var j :| 0 <= j < |records[1..]| && campo(records[1..][j]) == value && excluded != Some(pk(records[1..][j]));
          assert records[j + 1] == records[1..][j];
        }
      }
      r
  }

  function EmailOf(u: UserRecord): string { u.email }

  function UserPk(u: UserRecord): int { u.pk }

  function CpfOf(g: CpfRecord): string { g.cpf }

  function CpfPk(g: CpfRecord): int { g.pk }

  const EmailEmUso: string := "Este e-mail já está em uso."
  const CpfCadastrado: string := "Este CPF já está cadastrado."

  /**
   * `GestorForm.clean_email`: the manager being edited (a primary key and a
   * linked user) does not compete with its own account's e-mail.
   */
  function GestorCleanEmail(users: seq<UserRecord>, email: string, instancePk: Option<int>, userPk: Option<int>): (r: Result<string, string>)
    ensures r.Success? ==> r.value == email
    ensures r.Failure? ==> r.error == EmailEmUso
  {
    var excluded := if HasPk(instancePk) && userPk.Some? then userPk else None;
    if Taken(users, EmailOf, UserPk, email, excluded) then Failure(EmailEmUso) else Success(email)
  }

  /** `GestorForm.clean_cpf`: the manager being edited does not compete with itself. */
  function GestorCleanCpf(gestores: seq<CpfRecord>, cpf: string, instancePk: Option<int>): (r: Result<string, string>)
    ensures r.Success? ==> r.value == cpf
    ensures r.Failure? ==> r.error == CpfCadastrado
  {
    var excluded := if HasPk(instancePk) then instancePk else None;
    if Taken(gestores, CpfOf, CpfPk, cpf, excluded) then Failure(CpfCadastrado) else Success(cpf)
  }

  /**
   * A new manager form rejects exactly an e-mail and a CPF somebody has; an
   * edit rejects exactly those some OTHER record has, so re-saving one's own
   * values passes.
   */
  lemma UniquenessChecks(users: seq<UserRecord>, gestores: seq<CpfRecord>, email: string, cpf: string,
                         pk: int, userPk: int)
    requires pk != 0
    ensures GestorCleanEmail(users, email, None, None).Failure? <==> exists u :: u in users && u.email == email
    ensures GestorCleanCpf(gestores, cpf, None).Failure? <==> exists g :: g in gestores && g.cpf == cpf
    ensures GestorCleanEmail(users, email, Some(pk), Some(userPk)).Failure? <==>
              exists u :: u in users && u.email == email && u.pk != userPk
    ensures GestorCleanCpf(gestores, cpf, Some(pk)).Failure? <==>
              exists g :: g in gestores && g.cpf == cpf && g.pk != pk
  {
    if GestorCleanEmail(users, email, Some(pk), Some(userPk)).Failure? {
      var k :| 0 <= k < |users| && users[k].email == email && Some(userPk) != Some(users[k].pk);
      assert users[k] in users;
    }
    if GestorCleanCpf(gestores, cpf, Some(pk)).Failure? {
      var k :| 0 <= k < |gestores| && gestores[k].cpf == cpf && Some(pk) != Some(gestores[k].pk);
      assert gestores[k] in gestores;
    }
    if GestorCleanEmail(users, email, None, None).Failure? {
      var k :| 0 <= k < |users| && users[k].email == email;
      assert users[k] in users;
    }
    if GestorCleanCpf(gestores, cpf, None).Failure? {
      var k :| 0 <= k < |gestores| && gestores[k].cpf == cpf;
      assert gestores[k] in gestores;
    }
  }

  /** Editing a manager and keeping its own e-mail and CPF passes when no other record shares them. */
  lemma ResavingOwnValuesPasses(users: seq<UserRecord>, gestores: seq<CpfRecord>, pk: int, userPk: int,
                                email: string, cpf: string)
    requires pk != 0
    requires forall u :: u in users && u.email == email ==> u.pk == userPk
    requires forall g :: g in gestores && g.cpf == cpf ==> g.pk == pk
    ensures GestorCleanEmail(users, email, Some(pk), Some(userPk)) == Success(email)
    ensures GestorCleanCpf(gestores, cpf, Some(pk)) == Success(cpf)
  {
    UniquenessChecks(users, gestores, email, cpf, pk, userPk);
  }

  /** `ProfessorForm.clean_email`: a new teacher's e-mail must belong to no user at all. */
  function ProfessorCleanEmail(users: seq<UserRecord>, email: string): (r: Result<string, string>)
    ensures r.Success? ==> r.value == email
    ensures r.Failure? ==> r.error == "Este e-mail já está cadastrado."
  {
    if Taken(users, EmailOf, UserPk, email, None) then Failure("Este e-mail já está cadastrado.") else Success(email)
  }

  /** `AlunoForm.clean_cpf`: a new student's CPF must belong to no student at all. */
  function AlunoCleanCpf(alunos: seq<CpfRecord>, cpf: string): (r: Result<string, string>)
    ensures r.Success? ==> r.value == cpf
    ensures r.Failure? ==> r.error == "CPF já cadastrado."
  {
    if Taken(alunos, CpfOf, CpfPk, cpf, None) then Failure("CPF já cadastrado.") else Success(cpf)
  }

  /** `EditarPerfilForm.clean_email`: the e-mail must belong to no user but the one being edited (`exclude(pk=...)` with no truth test). */
  function PerfilCleanEmail(users: seq<UserRecord>, email: string, instancePk: Option<int>): (r: Result<string, string>)
    ensures r.Success? ==> r.value == email
    ensures r.Failure? ==> r.error == EmailEmUso
  {
    if Taken(users, EmailOf, UserPk, email, instancePk) then Failure(EmailEmUso) else Success(email)
  }

  /**
   * The registration forms reject exactly a value some record already has;
   * the profile form rejects exactly an e-mail another user has.
   */
  lemma RegistrationChecks(users: seq<UserRecord>, alunos: seq<CpfRecord>, email: string, cpf: string, pk: int)
    ensures ProfessorCleanEmail(users, email).Failure? <==> exists u :: u in users && u.email == email
    ensures AlunoCleanCpf(alunos, cpf).Failure? <==> exists a :: a in alunos && a.cpf == cpf
    ensures PerfilCleanEmail(users, email, Some(pk)).Failure? <==>
              exists u :: u in users && u.email == email && u.pk != pk
  {
    if ProfessorCleanEmail(users, email).Failure? {
      var k :| 0 <= k < |users| && users[k].email == email;
      assert users[k] in users;
    }
    if AlunoCleanCpf(alunos, cpf).Failure? {
      var k :| 0 <= k < |alunos| && alunos[k].cpf == cpf;
      assert alunos[k] in alunos;
    }
    if PerfilCleanEmail(users, email, Some(pk)).Failure? {
      var k :| 0 <= k < |users| && users[k].email == email && Some(pk) != Some(users[k].pk);
      assert users[k] in users;
    }
  }

  // ---------------------------------------------------------------- the manager form

  /** The fields of the manager form. */
  const GestorFields: seq<string> :=
    ["email", "senha", "senha_confirmacao", "nome_completo", "cpf", "data_nascimento", "telefone",
     "cep", "uf", "cidade", "endereco", "cargo", "foto"]

  predicate IsSenhaField(f: string) {
    f == "senha" || f == "senha_confirmacao"
  }

  /** The login account a manager is linked to. */
  class UserAccount {
    var username: string
    var email: string
    /** The stored password, as `set_password` leaves it. */
    var password: string

    constructor (username: string, email: string, password: string)
      ensures this.username == username && this.email == email && this.password == password
    {
      this.username := username;
      this.email := email;
      this.password := password;
    }
  }

  /** `RelatedObjectDoesNotExist`, raised when a manager's account is read before one is linked. */
  datatype SaveError = SemConta

  class GestorForm {
    /** `self.fields[f].required` for every field `f`. */
    var required: map<string, bool>
    /** `self.fields['email'].initial`. */
    var initialEmail: Option<string>

    /**
     * `GestorForm.__init__` for an instance with primary key `instancePk`
     * whose linked user, if any, has e-mail `userEmail`: every field is
     * required except the photo, and the passwords only when creating.
     */
    constructor (instancePk: Option<int>, userEmail: Option<string>)
      ensures forall f :: f in required <==> f in GestorFields
      ensures forall f :: f in required ==>
                (required[f] <==> f != "foto" && (!HasPk(instancePk) || !IsSenhaField(f)))
      ensures initialEmail == if HasPk(instancePk) && userEmail.Some? then userEmail else None
    {
      var flags: map<string, bool> := map[];
      var i := 0;
      while i < |GestorFields|
        invariant 0 <= i <= |GestorFields|
        invariant forall f :: f in flags <==> f in GestorFields[..i]
        invariant forall f :: f in flags ==> flags[f]
      {
        assert GestorFields[..i + 1] == GestorFields[..i] + [GestorFields[i]];
        flags := flags[GestorFields[i] := true];
        i := i + 1;
      }
      assert GestorFields[..i] == GestorFields;
      flags := flags["foto" := false];
      if HasPk(instancePk) {
        flags := flags["senha" := false]["senha_confirmacao" := false];
      } else {
        flags := flags["senha" := true]["senha_confirmacao" := true];
      }
      required := flags;
      initialEmail := if HasPk(instancePk) && userEmail.Some? then userEmail else None;
    }

    /**
     * The part of `GestorForm.save` that touches the login account: its
     * username and e-mail become the submitted e-mail, and its password
     * changes (to `hash` of the new one) only when a new one was typed. The
     * success value tells whether the session hash is refreshed, which
     * happens on a committed save with a request and a new password. A
     * manager with no account fails: `gestor.user` is a required one-to-one
     * link, so reading it unset raises instead of skipping the block.
     */
    method Save(conta: Option<UserAccount>, email: string, senha: Field, hash: string -> string,
                commit: bool, hasRequest: bool) returns (r: Result<bool, SaveError>)
      modifies if conta.Some? then {conta.value} else {}
      ensures r == Failure(SemConta) <==> conta.None?
      ensures conta.Some? ==>
                conta.value.username == email && conta.value.email == email &&
                conta.value.password == if Blank(senha) then old(conta.value.password) else hash(senha.value)
      ensures r.Success? ==> (r.value <==> commit && hasRequest && !Blank(senha))
    {
      if conta.None? {
        return Failure(SemConta);
      }
      var user := conta.value;
      user.email := email;
      user.username := email;
      if !Blank(senha) {
        user.password := hash(senha.value);
      }
      r := Success(commit && hasRequest && !Blank(senha));
    }
  }
}
