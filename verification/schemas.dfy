/** The length bounds the request models put on their string fields, as
    validity predicates. A length is counted in characters, as Pydantic
    counts `str` length. Email-format checking is not part of this model. */
module Schemas {
  import opened Wrappers

  const SignupNameMin := 2
  const SignupNameMax := 255
  const SignupPasswordMin := 8
  const LoginPasswordMin := 6
  const ProjectNameMin := 1
  const ProjectNameMax := 255

  datatype SignupRequest = SignupRequest(name: string, email: string, password: string)
  datatype LoginRequest = LoginRequest(email: string, password: string)
  datatype ProjectCreateRequest = ProjectCreateRequest(name: string, description: Option<string>)

  /** Which field a request fails on. */
  datatype Field = Name | Password

  /** `Field(min_length=lo, max_length=hi)`; `hi` is None when unbounded. */
  predicate WithinLength(s: string, lo: nat, hi: Option<nat>) {
    lo <= |s| && (hi.None? || |s| <= hi.value)
  }

  /** The fields of a signup request that break their bounds (the name must
      have 2 to 255 characters, the password at least 8). */
  function SignupErrors(req: SignupRequest): (r: set<Field>)
    ensures Name in r <==> |req.name| < 2 || |req.name| > 255
    ensures Password in r <==> |req.password| < 8
    ensures r <= {Name, Password}
  {
    (if WithinLength(req.name, SignupNameMin, Some(SignupNameMax)) then {} else {Name})
    + (if WithinLength(req.password, SignupPasswordMin, None) then {} else {Password})
  }

  /** The fields of a login request that break their bounds (the password
      must have at least 6 characters). */
  function LoginErrors(req: LoginRequest): (r: set<Field>)
    ensures r == {} <==> |req.password| >= 6
    ensures r <= {Password}
  {
    if WithinLength(req.password, LoginPasswordMin, None) then {} else {Password}
  }

  /** The fields of a project-create request that break their bounds (the
      name must have 1 to 255 characters; the description may be absent and
      is unbounded). */
  function ProjectCreateErrors(req: ProjectCreateRequest): (r: set<Field>)
    ensures r == {} <==> 1 <= |req.name| <= 255
    ensures r <= {Name}
  {
    if WithinLength(req.name, ProjectNameMin, Some(ProjectNameMax)) then {} else {Name}
  }

  predicate ValidSignup(req: SignupRequest) { SignupErrors(req) == {} }
  predicate ValidLogin(req: LoginRequest) { LoginErrors(req) == {} }
  predicate ValidProjectCreate(req: ProjectCreateRequest) { ProjectCreateErrors(req) == {} }

  /** Whoever could sign up can log in with the same email and password: the
      login bound is the weaker one. */
  lemma SignupPasswordPassesLogin(req: SignupRequest)
    requires ValidSignup(req)
    ensures ValidLogin(LoginRequest(req.email, req.password))
  {
    assert Password !in SignupErrors(req);
  }

  /** The converse fails: a 6- or 7-character password can log in but could
      never have been used to sign up. */
  lemma LoginBoundIsWeaker()
    ensures ValidLogin(LoginRequest("a@b.c", "secret"))
    ensures !ValidSignup(SignupRequest("Al", "a@b.c", "secret"))
  {
    assert Password in SignupErrors(SignupRequest("Al", "a@b.c", "secret"));
  }

  /** A description never makes a project-create request invalid. */
  lemma DescriptionIrrelevant(name: string, d1: Option<string>, d2: Option<string>)
    ensures ValidProjectCreate(ProjectCreateRequest(name, d1)) <==> ValidProjectCreate(ProjectCreateRequest(name, d2))
  {
  }
}
