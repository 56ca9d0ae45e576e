/**
 The login form's `handleLogin` (src/components/Login.tsx): trim the typed
 name, ignore a blank one, look it up among the admins and then among the
 interns with `.single()`, and produce a role-tagged identity or "not found".
 */
module Login {
  import opened Wrappers
  import opened Query
  import opened Text
  import opened Records

  datatype Outcome =
    | Ignored               // blank input: the handler returns before any query
    | NotFound              // neither table has exactly one row with that name
    | Welcome(who: Identity)

  /** Exactly one admin row, `admins[k]`, is named `name`. */
  predicate OnlyAdminNamed(admins: seq<Admin>, name: string, k: int) {
    && 0 <= k < |admins|
    && admins[k].name == name
    && forall j :: 0 <= j < |admins| && admins[j].name == name ==> j == k
  }

  /** Exactly one intern row, `interns[k]`, is named `name`. */
  predicate OnlyInternNamed(interns: seq<Intern>, name: string, k: int) {
    && 0 <= k < |interns|
    && interns[k].name == name
    && forall j :: 0 <= j < |interns| && interns[j].name == name ==> j == k
  }

  /** `from("admins").select("*").eq("name", name).single()`. */
  function FindAdmin(admins: seq<Admin>, name: string): (r: Option<Admin>)
    ensures r.Some? <==> exists k :: OnlyAdminNamed(admins, name, k)
    ensures forall k :: OnlyAdminNamed(admins, name, k) ==> r == Some(admins[k])
  {
    var named := (a: Admin) => a.name == name;
    var r := Single(admins, named);
    assert forall k :: OnlyAdminNamed(admins, name, k) <==> OnlyMatchAt(admins, named, k);
    r
  }

  /** `from("interns").select("*").eq("name", name).single()`. */
  function FindIntern(interns: seq<Intern>, name: string): (r: Option<Intern>)
    ensures r.Some? <==> exists k :: OnlyInternNamed(interns, name, k)
    ensures forall k :: OnlyInternNamed(interns, name, k) ==> r == Some(interns[k])
  {
    var named := (i: Intern) => i.name == name;
    var r := Single(interns, named);
    assert forall k :: OnlyInternNamed(interns, name, k) <==> OnlyMatchAt(interns, named, k);
    r
  }

  /** `handleLogin`: a blank name is ignored; otherwise the trimmed name is
      looked up among the admins first and among the interns only if no
      admin matched; the identity carries the matched row's id and name. */
  function Resolve(admins: seq<Admin>, interns: seq<Intern>, typed: string): (r: Outcome)
    ensures r.Ignored? <==> IsBlank(typed)
    ensures r.Welcome? ==> r.who.name == Trim(typed)
    ensures forall k :: !IsBlank(typed) && OnlyAdminNamed(admins, Trim(typed), k)
              ==> r == Welcome(Identity(admins[k].id, admins[k].name, AdminRole))
    ensures forall k :: !IsBlank(typed) && (forall a :: !OnlyAdminNamed(admins, Trim(typed), a))
                        && OnlyInternNamed(interns, Trim(typed), k)
              ==> r == Welcome(Identity(interns[k].id, interns[k].name, InternRole))
    ensures r.NotFound? <==>
              && !IsBlank(typed)
              && (forall a :: !OnlyAdminNamed(admins, Trim(typed), a))
              && (forall i :: !OnlyInternNamed(interns, Trim(typed), i))
  {
    if IsBlank(typed) then Ignored
    else
      var name := Trim(typed);
      match FindAdmin(admins, name)
      case Some(a) => Welcome(Identity(a.id, a.name, AdminRole))
      case None =>
        match FindIntern(interns, name)
        case Some(i) => Welcome(Identity(i.id, i.name, InternRole))
        case None => NotFound
  }
}
