/**
 The page component (src/app/page.tsx): one optional current user, the
 client-held slot it is persisted in, the startup restore from that slot,
 login and logout, and the choice of which screen to render.
 */
module Session {
  import opened Wrappers
  import opened Text
  import opened Records
  import Login

  /** `user` is the React state, `slot` the persisted session entry, and
      `loading` is true until the startup effect has run. */
  datatype Client = Client(user: Option<Identity>, slot: Option<Identity>, loading: bool)

  datatype Screen = Spinner | LoginScreen | AdminScreen(who: Identity) | InternScreen(who: Identity)

  /** A freshly mounted page: no user yet, still loading, over whatever slot
      the browser holds. */
  function Mount(slot: Option<Identity>): (c: Client)
    ensures c.user.None? && c.loading && c.slot == slot
  {
    Client(None, slot, true)
  }

  /** The startup effect: a saved identity becomes the current user, and
      loading ends either way. */
  function Restore(c: Client): (r: Client)
    ensures !r.loading && r.slot == c.slot
    ensures c.slot.Some? ==> r.user == c.slot
    ensures c.slot.None? ==> r.user == c.user
  {
    Client(if c.slot.Some? then c.slot else c.user, c.slot, false)
  }

  /** A page load: mount, then run the startup effect. */
  function Startup(slot: Option<Identity>): (c: Client)
    ensures !c.loading && c.user == slot && c.slot == slot
  {
    Restore(Mount(slot))
  }

  /** `handleLogin`: the identity becomes both the current user and the
      saved slot. */
  function SignIn(c: Client, who: Identity): (r: Client)
    ensures r.user == Some(who) && r.slot == Some(who) && r.loading == c.loading
  {
    c.(user := Some(who), slot := Some(who))
  }

  /** `handleLogout`: no user and an empty slot, whatever came before. */
  function SignOut(c: Client): (r: Client)
    ensures r.user.None? && r.slot.None? && r.loading == c.loading
  {
    c.(user := None, slot := None)
  }

  /** What the page renders: a spinner while loading, the login form without
      a user, the founder's dashboard for role admin and the intern portal
      for any other role. */
  function ScreenOf(c: Client): (v: Screen)
    ensures c.loading <==> v.Spinner?
    ensures !c.loading && c.user.None? ==> v.LoginScreen?
    ensures !c.loading && c.user.Some? ==>
              (v.AdminScreen? || v.InternScreen?) && v.who == c.user.value
              && (v.AdminScreen? <==> c.user.value.role == AdminRole)
  {
    if c.loading then Spinner
    else match c.user
      case None => LoginScreen
      case Some(u) => if u.role == AdminRole then AdminScreen(u) else InternScreen(u)
  }

  /** Submitting the login form: the page signs in with the identity the
      form resolves; a blank or unknown name leaves the page as it was. */
  function Submit(c: Client, admins: seq<Admin>, interns: seq<Intern>, typed: string): (r: Client)
    ensures Login.Resolve(admins, interns, typed).Welcome? ==> r == SignIn(c, Login.Resolve(admins, interns, typed).who)
    ensures !Login.Resolve(admins, interns, typed).Welcome? ==> r == c
  {
    match Login.Resolve(admins, interns, typed)
    case Welcome(who) => SignIn(c, who)
    case _ => c
  }

  /** A name that resolves to exactly one admin opens the founder's
      dashboard, even when an intern has the same name; a name that only one
      intern has opens that intern's portal. */
  lemma SubmitRoutesByRole(c: Client, admins: seq<Admin>, interns: seq<Intern>, typed: string)
    requires !c.loading && !IsBlank(typed)
    ensures forall k :: Login.OnlyAdminNamed(admins, Trim(typed), k) ==>
              ScreenOf(Submit(c, admins, interns, typed)) == AdminScreen(Identity(admins[k].id, admins[k].name, AdminRole))
    ensures forall k :: (forall a :: !Login.OnlyAdminNamed(admins, Trim(typed), a)) && Login.OnlyInternNamed(interns, Trim(typed), k) ==>
              ScreenOf(Submit(c, admins, interns, typed)) == InternScreen(Identity(interns[k].id, interns[k].name, InternRole))
    ensures Login.Resolve(admins, interns, typed).NotFound? ==> Submit(c, admins, interns, typed) == c
  {
    var r := Login.Resolve(admins, interns, typed);
    var after := Submit(c, admins, interns, typed);
    if r.Welcome? {
      assert after == SignIn(c, r.who);
      assert ScreenOf(after) == if r.who.role == AdminRole then AdminScreen(r.who) else InternScreen(r.who);
    }
  }

  /** Logging in and then reloading the page restores the same user and the
      same screen. */
  lemma ReloadKeepsLogin(c: Client, who: Identity)
    ensures Startup(SignIn(c, who).slot).user == Some(who)
    ensures ScreenOf(Startup(SignIn(c, who).slot)) == ScreenOf(SignIn(c, who).(loading := false))
  {
  }

  /** Logging out and then reloading the page shows the login form. */
  lemma ReloadAfterLogout(c: Client)
    ensures ScreenOf(Startup(SignOut(c).slot)) == LoginScreen
  {
  }
}
