/**
 * Who may see what: the dashboard a user is sent to after logging in, the
 * permission tests guarding the dashboards and the management pages, and
 * the name a page greets the user with.
 */
module Access {
  import opened Wrappers
  import Text

  /** The profile of a teacher or a student, linked one-to-one to a user. */
  datatype Profile = Profile(id: int, nomeCompleto: string)

  /** The profile of a manager; `cargo` is one of "diretor", "vice_diretor", "secretario", "coordenador". */
  datatype GestorProfile = GestorProfile(id: int, nomeCompleto: string, cargo: string)

  /** An account with the profiles attached to it (`hasattr(user, 'professor')` is `professor.Some?`). */
  datatype User = User(isAuthenticated: bool, isSuperuser: bool, firstName: string, lastName: string, email: string,
                       professor: Option<Profile>, aluno: Option<Profile>, gestor: Option<GestorProfile>)

  /** The three dashboards. */
  datatype Route = PainelSuper | PainelProfessor | PainelAluno

  /** `is_super_ou_gestor`: the test guarding the administration dashboard. */
  predicate IsSuperOrGestor(u: User): (r: bool)
    ensures r <==> RoleRoute(u) == Some(PainelSuper) || u.gestor.Some?
  {
    u.isSuperuser || u.gestor.Some?
  }

  /** A dashboard lets the user in: it requires a login and passes its own role test. */
  predicate Admits(r: Route, u: User) {
    u.isAuthenticated &&
    match r
    case PainelSuper => IsSuperOrGestor(u)
    case PainelProfessor => u.professor.Some?
    case PainelAluno => u.aluno.Some?
  }

  /**
   * The dashboard of a user by role, checked in the order superuser, teacher,
   * student, manager; `None` for a user with no role.
   */
  function RoleRoute(u: User): (r: Option<Route>)
    ensures r == Some(PainelSuper) <==> u.isSuperuser || (u.professor.None? && u.aluno.None? && u.gestor.Some?)
    ensures r == Some(PainelProfessor) <==> !u.isSuperuser && u.professor.Some?
    ensures r == Some(PainelAluno) <==> !u.isSuperuser && u.professor.None? && u.aluno.Some?
  {
    if u.isSuperuser then Some(PainelSuper)
    else if u.professor.Some? then Some(PainelProfessor)
    else if u.aluno.Some? then Some(PainelAluno)
    else if u.gestor.Some? then Some(PainelSuper)
    else None
  }

  /** A logged-in user is sent only to a dashboard that admits them, and has no dashboard exactly when none admits them. */
  lemma RoleRouteAdmitted(u: User)
    requires u.isAuthenticated
    ensures RoleRoute(u).Some? ==> Admits(RoleRoute(u).value, u)
    ensures RoleRoute(u).None? <==> !Admits(PainelSuper, u) && !Admits(PainelProfessor, u) && !Admits(PainelAluno, u)
  {
  }

  /** A request to the login page: a page view, or a submitted form that authenticated a user (`None`: the form was invalid). */
  datatype LoginRequest = View | Submit(authenticated: Option<User>)

  /** The user of the session after the request, and the dashboard redirected to (`None`: the login page is shown). */
  datatype LoginResult = LoginResult(session: User, route: Option<Route>)

  /**
   * `login_view`: a logged-in user with a role is redirected at once; a form
   * that authenticates a user logs that user in and redirects by role.
   */
  function LoginView(current: User, req: LoginRequest): (r: LoginResult)
    ensures current.isAuthenticated && RoleRoute(current).Some? ==> r == LoginResult(current, RoleRoute(current))
    ensures r.route.Some? ==> Admits(r.route.value, r.session)
    ensures r.session != current ==>
              req.Submit? && req.authenticated.Some? && r.session == req.authenticated.value.(isAuthenticated := true)
    ensures req.View? || req.authenticated.None? ==> r.session == current
    ensures !(current.isAuthenticated && RoleRoute(current).Some?) && req.Submit? && req.authenticated.Some? ==>
              r.route == RoleRoute(r.session)
    ensures req.View? && !(current.isAuthenticated && RoleRoute(current).Some?) ==> r.route == None
  {
    if current.isAuthenticated && RoleRoute(current).Some? then
      RoleRouteAdmitted(current);
      LoginResult(current, RoleRoute(current))
    else
      match req
      case View => LoginResult(current, None)
      case Submit(None) => LoginResult(current, None)
      case Submit(Some(user)) =>
        var logged := user.(isAuthenticated := true);
        RoleRouteAdmitted(logged);
        LoginResult(logged, RoleRoute(logged))
  }

  /** A successful login of a user with a role always ends on a dashboard that admits them. */
  lemma LoginReachesDashboard(current: User, user: User)
    requires !current.isAuthenticated && RoleRoute(user).Some?
    ensures LoginView(current, Submit(Some(user))).route.Some?
    ensures Admits(LoginView(current, Submit(Some(user))).route.value, LoginView(current, Submit(Some(user))).session)
  {
    RoleRouteAdmitted(user.(isAuthenticated := true));
  }

  /** A manager whose position is director or vice-director. */
  predicate IsDirector(u: User) {
    u.gestor.Some? && (u.gestor.value.cargo == "diretor" || u.gestor.value.cargo == "vice_diretor")
  }

  /** `pode_ver_gestores` of the users page: superusers, directors and vice-directors. */
  function PodeVerGestores(u: User): (r: bool)
    ensures r <==> u.isSuperuser || IsDirector(u)
  {
    if u.isSuperuser then true
    else if u.gestor.Some? then u.gestor.value.cargo in ["diretor", "vice_diretor"]
    else false
  }

  /**
   * Everyone who may see the managers may also open the administration
   * dashboard; a manager of another position (a secretary, a coordinator)
   * may open it but not see them.
   */
  lemma PodeVerGestoresIsAdmin(u: User)
    ensures PodeVerGestores(u) ==> IsSuperOrGestor(u)
    ensures !u.isSuperuser && u.gestor.Some? && u.gestor.value.cargo in ["secretario", "coordenador"] ==>
              IsSuperOrGestor(u) && !PodeVerGestores(u)
  {
  }

  /** `editar_gestor`'s test: a superuser, or the manager being edited (managers compare by id). */
  function CanEditGestor(u: User, g: GestorProfile): (r: bool)
    ensures r ==> IsSuperOrGestor(u)
    ensures u.isSuperuser ==> r
    ensures !u.isSuperuser && u.gestor.Some? ==> (r <==> u.gestor.value.id == g.id)
    ensures !u.isSuperuser && u.gestor.None? ==> !r
  {
    u.isSuperuser || (u.gestor.Some? && u.gestor.value.id == g.id)
  }

  /** `get_nome_exibicao`: the manager's, teacher's or student's full name, in that order, else the first and last name, else the e-mail. */
  function NomeExibicao(u: User): (r: string)
    ensures u.gestor.Some? ==> r == u.gestor.value.nomeCompleto
    ensures u.gestor.None? && u.professor.Some? ==> r == u.professor.value.nomeCompleto
    ensures u.gestor.None? && u.professor.None? && u.aluno.Some? ==> r == u.aluno.value.nomeCompleto
  {
    if u.gestor.Some? then u.gestor.value.nomeCompleto
    else if u.professor.Some? then u.professor.value.nomeCompleto
    else if u.aluno.Some? then u.aluno.value.nomeCompleto
    else
      var nome := Text.Strip(u.firstName + " " + u.lastName);
      if nome != "" then nome else u.email
  }

  /**
   * A user without a profile is shown by their first and last name joined
   * by a space, less the whitespace around it; the e-mail appears exactly
   * when both names are blank.
   */
  lemma NomeExibicaoWithoutProfile(u: User)
    requires u.gestor.None? && u.professor.None? && u.aluno.None?
    ensures NomeExibicao(u) == u.email <==>
              Text.Strip(u.firstName + " " + u.lastName) == u.email ||
              ((forall i :: 0 <= i < |u.firstName| ==> Text.IsSpace(u.firstName[i])) &&
               (forall i :: 0 <= i < |u.lastName| ==> Text.IsSpace(u.lastName[i])))
    ensures NomeExibicao(u) != u.email ==>
              NomeExibicao(u) != [] && !Text.IsSpace(NomeExibicao(u)[0]) &&
              !Text.IsSpace(NomeExibicao(u)[|NomeExibicao(u)| - 1])
    ensures Text.Strip(u.firstName + " " + u.lastName) != [] ==>
              NomeExibicao(u) == Text.Strip(u.firstName + " " + u.lastName)
    ensures Text.Strip(u.firstName + " " + u.lastName) == [] ==> NomeExibicao(u) == u.email
  {
    var full := u.firstName + " " + u.lastName;
    Text.StripEmpty(full);
    Text.StripSpec(full);
    if forall i :: 0 <= i < |full| ==> Text.IsSpace(full[i]) {
      forall i | 0 <= i < |u.firstName| ensures Text.IsSpace(u.firstName[i]) {
        assert full[i] == u.firstName[i];
      }
      forall i | 0 <= i < |u.lastName| ensures Text.IsSpace(u.lastName[i]) {
        assert full[|u.firstName| + 1 + i] == u.lastName[i];
      }
    }
    if (forall i :: 0 <= i < |u.firstName| ==> Text.IsSpace(u.firstName[i])) &&
       (forall i :: 0 <= i < |u.lastName| ==> Text.IsSpace(u.lastName[i])) {
      forall i | 0 <= i < |full| ensures Text.IsSpace(full[i]) {
        if i < |u.firstName| {
          assert full[i] == u.firstName[i];
        } else if i > |u.firstName| {
          assert full[i] == u.lastName[i - |u.firstName| - 1];
        }
      }
    }
  }

  /**
   * Without a profile and with a name given, the name shown is a slice of
   * "first last" with only whitespace cut off on either side.
   */
  lemma NomeExibicaoIsName(u: User) returns (a: nat, b: nat)
    requires u.gestor.None? && u.professor.None? && u.aluno.None?
    requires Text.Strip(u.firstName + " " + u.lastName) != []
    ensures a < b <= |u.firstName + " " + u.lastName|
    ensures NomeExibicao(u) == (u.firstName + " " + u.lastName)[a..b]
    ensures forall i :: 0 <= i < a ==> Text.IsSpace((u.firstName + " " + u.lastName)[i])
    ensures forall i :: b <= i < |u.firstName + " " + u.lastName| ==> Text.IsSpace((u.firstName + " " + u.lastName)[i])
  {
    a, b := Text.StripSlice(u.firstName + " " + u.lastName);
  }
}
