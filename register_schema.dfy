/** `registerSchema`: a well-formed email, a password of 8 to 70 characters
    (bcrypt only uses the first bytes of longer ones) and an optional role
    from the enumeration Admin, Manager, User. */
module RegisterSchema {
  import opened Wrappers
  import opened Zod

  const Roles: seq<string> := ["Admin", "Manager", "User"]

  datatype RegisterInput = RegisterInput(email: string, password: string, role: Option<string>)

  /** `role: z.enum(Roles).default("User").optional()`. */
  predicate RoleOk(o: JsonObject) {
    "role" !in o || (o["role"].JString? && o["role"].s in Roles)
  }

  /** `registerSchema.parse(o)`. */
  function Parse(o: JsonObject): (r: Result<RegisterInput, Issue>)
    ensures r.Ok? <==> EmailAt(o, "email") && StringIn(o, "password", 8, 70) && RoleOk(o)
    ensures r.Ok? ==> JString(r.value.email) == o["email"] && JString(r.value.password) == o["password"]
    ensures r.Ok? ==> r.value.role == (if "role" in o then Some(o["role"].s) else None)
  {
    if !EmailAt(o, "email") then Err(InvalidField("email"))
    else if !StringIn(o, "password", 8, 70) then Err(InvalidField("password"))
    else if !RoleOk(o) then Err(InvalidField("role"))
    else Ok(RegisterInput(o["email"].s, o["password"].s, if "role" in o then Some(o["role"].s) else None))
  }

  /** The role the service registers: `input.role || "User"`. */
  function RequestedRole(input: RegisterInput): (name: string)
    ensures input.role.None? ==> name == "User"
    ensures input.role.Some? && input.role.value != "" ==> name == input.role.value
    ensures input.role == Some("") ==> name == "User"
  {
    if input.role.Some? && input.role.value != "" then input.role.value else "User"
  }

  /** Every input the schema accepts asks for a role of the enumeration, and
      omitting the role asks for "User". */
  lemma ParsedRoleInEnum(o: JsonObject)
    requires Parse(o).Ok?
    ensures RequestedRole(Parse(o).value) in Roles
    ensures "role" !in o ==> RequestedRole(Parse(o).value) == "User"
  {
  }

  /** The password bounds of the tests: 7 and 71 characters are rejected,
      8 and 70 accepted, everything else being valid. */
  lemma PasswordBounds(email: string, p: string)
    requires IsEmail(email)
    ensures var r := Parse(map["email" := JString(email), "password" := JString(p)]);
            r.Ok? <==> 8 <= |p| <= 70
  {
  }

  /** Examples from the test file: "InvalidRole" and a malformed email are rejected. */
  lemma RejectedInputs(o: JsonObject)
    ensures "role" in o && o["role"] == JString("InvalidRole") ==> Parse(o).Err?
    ensures "email" in o && o["email"] == JString("email-invalido") ==> Parse(o).Err?
  {
    NoAtIsNoEmail("email-invalido");
  }
}
