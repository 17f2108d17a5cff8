/** `createUserSchema`: an optional, nullable tenant id, a well-formed email,
    a password of 1 to 70 characters, a role that can only be "User" (and
    defaults to it), and an optional creation date given as a date or as a
    string coerced to one. */
module CreateUserSchema {
  import opened Wrappers
  import opened Zod

  datatype CreateUserInput = CreateUserInput(
    tenantId: Field<string>, email: string, password: string, role: string,
    createdAt: Option<Timestamp>)

  /** `role: z.enum(["User"]).default("User")`. */
  predicate RoleOk(o: JsonObject) {
    "role" !in o || o["role"] == JString("User")
  }

  /** `created_at`: absent, or a string that `new Date(v)` turns into a valid
      date. `dateOf` stands for JavaScript's date parser. */
  predicate CreatedAtOk(o: JsonObject, dateOf: string -> Option<Timestamp>) {
    "created_at" !in o || (o["created_at"].JString? && dateOf(o["created_at"].s).Some?)
  }

  /** `createUserSchema.parse(o)`. */
  function Parse(o: JsonObject, dateOf: string -> Option<Timestamp>): (r: Result<CreateUserInput, Issue>)
    ensures r.Ok? <==>
              NullableString(o, "tenant_id").Some? && EmailAt(o, "email") &&
              StringIn(o, "password", 1, 70) && RoleOk(o) && CreatedAtOk(o, dateOf)
    ensures r.Ok? ==> r.value.role == "User"
    ensures r.Ok? ==> Some(r.value.tenantId) == NullableString(o, "tenant_id")
    ensures r.Ok? ==> JString(r.value.email) == o["email"] && JString(r.value.password) == o["password"]
    ensures r.Ok? ==>
              r.value.createdAt == (if "created_at" in o then dateOf(o["created_at"].s) else None)
  {
    var tenant := NullableString(o, "tenant_id");
    if tenant.None? then Err(InvalidField("tenant_id"))
    else if !EmailAt(o, "email") then Err(InvalidField("email"))
    else if !StringIn(o, "password", 1, 70) then Err(InvalidField("password"))
    else if !RoleOk(o) then Err(InvalidField("role"))
    else if !CreatedAtOk(o, dateOf) then Err(InvalidField("created_at"))
    else
      var createdAt := if "created_at" in o then dateOf(o["created_at"].s) else None;
      Ok(CreateUserInput(tenant.value, o["email"].s, o["password"].s, "User", createdAt))
  }

  /** Examples from the test file: the empty password, a malformed email and any role other than "User"
      are rejected; `null` is as good as a missing `tenant_id`. */
  lemma RejectedInputs(o: JsonObject, dateOf: string -> Option<Timestamp>)
    ensures "password" in o && o["password"] == JString("") ==> Parse(o, dateOf).Err?
    ensures "email" in o && o["email"] == JString("email-invalido") ==> Parse(o, dateOf).Err?
    ensures "role" in o && o["role"] != JString("User") ==> Parse(o, dateOf).Err?
    ensures "created_at" in o && !o["created_at"].JString? ==> Parse(o, dateOf).Err?
  {
    NoAtIsNoEmail("email-invalido");
  }

  /** `tenant_id` may be absent, null or any string. */
  lemma TenantForms(o: JsonObject, dateOf: string -> Option<Timestamp>, t: Json)
    requires "tenant_id" !in o && Parse(o, dateOf).Ok?
    requires t != JOther
    ensures Parse(o["tenant_id" := t], dateOf).Ok?
  {
    var o' := o["tenant_id" := t];
    assert EmailAt(o', "email") && StringIn(o', "password", 1, 70);
    assert RoleOk(o') && CreatedAtOk(o', dateOf);
  }
}
