/** `updateUserSchema`: every field optional (tenant id also nullable), each
    present one checked as at creation, and at least one field required. */
module UpdateUserSchema {
  import opened Wrappers
  import opened Zod

  datatype UpdateUserInput = UpdateUserInput(
    tenantId: Field<string>, email: Option<string>, password: Option<string>, role: Option<string>)

  /** The keys the schema declares; zod strips all others before `refine`. */
  const Keys: seq<string> := ["tenant_id", "email", "password", "role"]

  predicate EmailOk(o: JsonObject) {
    "email" !in o || EmailAt(o, "email")
  }

  predicate PasswordOk(o: JsonObject) {
    "password" !in o || StringIn(o, "password", 1, 70)
  }

  predicate RoleOk(o: JsonObject) {
    "role" !in o || o["role"] == JString("User")
  }

  /** The object `refine` sees has at least one key. */
  predicate HasSomeKey(o: JsonObject) {
    exists k | k in Keys :: k in o
  }

  function OptionalString(o: JsonObject, key: string): Option<string> {
    if key in o && o[key].JString? then Some(o[key].s) else None
  }

  /** `updateUserSchema.parse(o)`. */
  function Parse(o: JsonObject): (r: Result<UpdateUserInput, Issue>)
    ensures r.Ok? <==>
              NullableString(o, "tenant_id").Some? && EmailOk(o) && PasswordOk(o) &&
              RoleOk(o) && HasSomeKey(o)
    ensures r.Ok? ==> Some(r.value.tenantId) == NullableString(o, "tenant_id")
    ensures r.Ok? ==> r.value.email == OptionalString(o, "email")
    ensures r.Ok? ==> r.value.password == OptionalString(o, "password")
    ensures r.Ok? ==> (r.value.role.Some? <==> "role" in o)
    ensures r.Ok? ==> r.value.email.Some? ==> IsEmail(r.value.email.value)
    ensures r.Ok? ==> r.value.password.Some? ==> 1 <= |r.value.password.value| <= 70
  {
    var tenant := NullableString(o, "tenant_id");
    if tenant.None? then Err(InvalidField("tenant_id"))
    else if !EmailOk(o) then Err(InvalidField("email"))
    else if !PasswordOk(o) then Err(InvalidField("password"))
    else if !RoleOk(o) then Err(InvalidField("role"))
    else if !HasSomeKey(o) then Err(Refinement("At least one field required"))
    else Ok(UpdateUserInput(tenant.value, OptionalString(o, "email"), OptionalString(o, "password"),
                            if "role" in o then Some("User") else None))
  }

  /** An object with none of the declared keys fails the refinement. */
  lemma EmptyRejected(o: JsonObject)
    requires forall k | k in Keys :: k !in o
    ensures Parse(o) == Err(Refinement("At least one field required"))
  {
    assert NullableString(o, "tenant_id") == Some(Missing);
  }

  /** Examples from the test file: a malformed email, an empty password and a role other than "User" are
      rejected. */
  lemma RejectedInputs(o: JsonObject)
    ensures "email" in o && o["email"] == JString("email-invalido") ==> Parse(o).Err?
    ensures "password" in o && o["password"] == JString("") ==> Parse(o).Err?
    ensures "role" in o && o["role"] != JString("User") ==> Parse(o).Err?
  {
    NoAtIsNoEmail("email-invalido");
  }
}
