/** What the zod schemas of the domain/ folder work on: a parsed JSON request
    body, and the primitive checks the schemas are built from. */
module Zod {
  import opened Wrappers

  /** A JSON value as far as the schemas distinguish it: a string, `null`, or
      anything else (number, boolean, array, object). */
  datatype Json = JString(s: string) | JNull | JOther

  /** A JSON object: its members by key. */
  type JsonObject = map<string, Json>

  /** Why `schema.parse` threw its ZodError: the first field, in the order
      the schema declares them, that failed, or a failed `refine`. */
  datatype Issue = InvalidField(name: string) | Refinement(message: string)

  /** `z.email()`, approximated: a non-empty local part, exactly one '@', and
      a domain with a '.' strictly inside it. */
  predicate IsEmail(s: string) {
    exists at | 0 < at < |s| :: s[at] == '@' && '@' !in s[..at] && IsDomain(s[at + 1..])
  }

  predicate IsDomain(d: string) {
    '@' !in d && exists dot | 0 < dot < |d| - 1 :: d[dot] == '.'
  }

  /** A string without '@' is never an email address. */
  lemma NoAtIsNoEmail(s: string)
    requires forall i | 0 <= i < |s| :: s[i] != '@'
    ensures !IsEmail(s)
  {
  }

  /** `key: z.string().min(lo).max(hi)` holds of the object. */
  predicate StringIn(o: JsonObject, key: string, lo: nat, hi: nat) {
    key in o && o[key].JString? && lo <= |o[key].s| <= hi
  }

  /** `key: z.email()` holds of the object. */
  predicate EmailAt(o: JsonObject, key: string) {
    key in o && o[key].JString? && IsEmail(o[key].s)
  }

  /** `key: z.string().nullable().optional()`: `None` when the member has
      another type, which zod reports as an issue. */
  function NullableString(o: JsonObject, key: string): (r: Option<Field<string>>)
    ensures r == Some(Missing) <==> key !in o
    ensures r == Some(Null) <==> key in o && o[key] == JNull
    ensures r.Some? && r.value.Given? <==> key in o && o[key].JString?
    ensures r.Some? && r.value.Given? ==> r.value.value == o[key].s
  {
    if key !in o then Some(Missing)
    else match o[key]
      case JString(s) => Some(Given(s))
      case JNull => Some(Null)
      case JOther => None
  }
}
