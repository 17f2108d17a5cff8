/** `loginSchema`: a well-formed email and a password of 8 to 70 characters;
    it declares no other field. */
module LoginSchema {
  import opened Wrappers
  import opened Zod

  datatype LoginInput = LoginInput(email: string, password: string)

  /** `loginSchema.parse(o)`. */
  function Parse(o: JsonObject): (r: Result<LoginInput, Issue>)
    ensures r.Ok? <==> EmailAt(o, "email") && StringIn(o, "password", 8, 70)
    ensures r.Ok? ==> r.value == LoginInput(o["email"].s, o["password"].s)
  {
    if !EmailAt(o, "email") then Err(InvalidField("email"))
    else if !StringIn(o, "password", 8, 70) then Err(InvalidField("password"))
    else Ok(LoginInput(o["email"].s, o["password"].s))
  }

  /** Members other than `email` and `password` (a `role`, say) never change
      the outcome: zod strips them. */
  lemma OtherKeysIgnored(o: JsonObject, k: string, v: Json)
    requires k != "email" && k != "password"
    ensures Parse(o[k := v]) == Parse(o)
  {
    assert EmailAt(o[k := v], "email") == EmailAt(o, "email");
    assert StringIn(o[k := v], "password", 8, 70) == StringIn(o, "password", 8, 70);
  }

  /** Examples from the test file: a 7-character password and a malformed email are rejected (400 before
      any user lookup). */
  lemma RejectedInputs(o: JsonObject)
    ensures "password" in o && o["password"].JString? && |o["password"].s| == 7 ==> Parse(o).Err?
    ensures "email" in o && o["email"] == JString("email-invalido") ==> Parse(o).Err?
  {
    NoAtIsNoEmail("email-invalido");
  }
}
