/** `paramsWithIdSchema`: the `:id` route parameter must be non-empty and
    match `uuidRegex`, the 8-4-4-4-12 hexadecimal form of section 4 of
    RFC 9562, with hex digits in either case. */
module IdParams {
  import opened Wrappers
  import opened Zod

  /** `[0-9a-f]` under the regex's `i` flag. */
  predicate IsHexDigit(c: char) {
    '0' <= c <= '9' || 'a' <= c <= 'f' || 'A' <= c <= 'F'
  }

  /** Offsets of the four hyphens. */
  predicate IsHyphenOffset(i: int) {
    i == 8 || i == 13 || i == 18 || i == 23
  }

  /** `uuidRegex.test(s)`: anchored at both ends, so exactly 36 characters. */
  predicate IsUuid(s: string) {
    |s| == 36 &&
    forall i | 0 <= i < |s| :: if IsHyphenOffset(i) then s[i] == '-' else IsHexDigit(s[i])
  }

  /** `paramsWithIdSchema.parse({id})`. */
  function ParseId(id: string): (r: Result<string, Issue>)
    ensures r.Ok? <==> IsUuid(id)
    ensures r.Ok? ==> r.value == id && |id| == 36
    ensures id == "" ==> r.Err?
  {
    if |id| < 1 then Err(InvalidField("id"))
    else if !IsUuid(id) then Err(Refinement("Invalid UUID format"))
    else Ok(id)
  }

  predicate IsHexGroup(g: string, n: nat) {
    |g| == n && forall i | 0 <= i < |g| :: IsHexDigit(g[i])
  }

  /** The five groups joined by hyphens. */
  function Join(g1: string, g2: string, g3: string, g4: string, g5: string): string {
    g1 + "-" + g2 + "-" + g3 + "-" + g4 + "-" + g5
  }

  /** Five hex groups of lengths 8, 4, 4, 4 and 12 joined by hyphens form a
      string the check accepts. */
  lemma {:induction false} JoinedGroupsAreUuid(g1: string, g2: string, g3: string, g4: string, g5: string)
    requires IsHexGroup(g1, 8) && IsHexGroup(g2, 4) && IsHexGroup(g3, 4)
    requires IsHexGroup(g4, 4) && IsHexGroup(g5, 12)
    ensures IsUuid(Join(g1, g2, g3, g4, g5))
  {
    var s := Join(g1, g2, g3, g4, g5);
    assert |s| == 36;
    forall i | 0 <= i < 36
      ensures if IsHyphenOffset(i) then s[i] == '-' else IsHexDigit(s[i])
    {
      if i < 8 { assert s[i] == g1[i]; }
      else if i == 8 { }
      else if i < 13 { assert s[i] == g2[i - 9]; }
      else if i == 13 { }
      else if i < 18 { assert s[i] == g3[i - 14]; }
      else if i == 18 { }
      else if i < 23 { assert s[i] == g4[i - 19]; }
      else if i == 23 { }
      else { assert s[i] == g5[i - 24]; }
    }
  }

  /** Conversely, every accepted string is five such groups joined by hyphens. */
  lemma {:induction false} UuidSplitsIntoGroups(s: string)
    requires IsUuid(s)
    ensures IsHexGroup(s[..8], 8) && IsHexGroup(s[9..13], 4) && IsHexGroup(s[14..18], 4)
    ensures IsHexGroup(s[19..23], 4) && IsHexGroup(s[24..], 12)
    ensures s == Join(s[..8], s[9..13], s[14..18], s[19..23], s[24..])
  {
    forall i | 0 <= i < 8 ensures IsHexDigit(s[..8][i]) { assert !IsHyphenOffset(i); }
    forall i | 0 <= i < 4 ensures IsHexDigit(s[9..13][i]) { assert !IsHyphenOffset(i + 9); }
    forall i | 0 <= i < 4 ensures IsHexDigit(s[14..18][i]) { assert !IsHyphenOffset(i + 14); }
    forall i | 0 <= i < 4 ensures IsHexDigit(s[19..23][i]) { assert !IsHyphenOffset(i + 19); }
    forall i | 0 <= i < 12 ensures IsHexDigit(s[24..][i]) { assert !IsHyphenOffset(i + 24); }
    assert IsHyphenOffset(8) && IsHyphenOffset(13) && IsHyphenOffset(18) && IsHyphenOffset(23);
    var t := Join(s[..8], s[9..13], s[14..18], s[19..23], s[24..]);
    assert |t| == 36;
    forall i | 0 <= i < 36 ensures t[i] == s[i] {
      if i < 8 { } else if i < 9 { } else if i < 13 { } else if i < 14 { }
      else if i < 18 { } else if i < 19 { } else if i < 23 { } else if i < 24 { } else { }
    }
  }

  /** ASCII lower-casing, for the `i` flag. */
  function LowerChar(c: char): char {
    if 'A' <= c <= 'Z' then (c as int + 32) as char else c
  }

  function Lower(s: string): (t: string)
    ensures |t| == |s| && forall i | 0 <= i < |s| :: t[i] == LowerChar(s[i])
  {
    seq(|s|, i requires 0 <= i < |s| => LowerChar(s[i]))
  }

  /** The check ignores the case of the hex digits. */
  lemma {:induction false} CaseInsensitive(s: string)
    ensures IsUuid(s) <==> IsUuid(Lower(s))
  {
    var t := Lower(s);
    if IsUuid(t) {
      forall i | 0 <= i < |s| ensures if IsHyphenOffset(i) then s[i] == '-' else IsHexDigit(s[i]) {
        assert t[i] == LowerChar(s[i]);
        if IsHyphenOffset(i) { assert t[i] == '-'; } else { assert IsHexDigit(t[i]); }
      }
    }
    if IsUuid(s) {
      forall i | 0 <= i < |t| ensures if IsHyphenOffset(i) then t[i] == '-' else IsHexDigit(t[i]) {
        assert t[i] == LowerChar(s[i]);
      }
    }
  }

  /** Example from the test file: the empty string and "invalid-id" are rejected with 400. */
  lemma MalformedIdsRejected()
    ensures ParseId("").Err?
    ensures ParseId("invalid-id").Err?
  {
  }

  /** Example from the test file: the all-zero UUID passes the format check, so a lookup then answers
      404 rather than 400. */
  lemma NilUuidAccepted()
    ensures ParseId("00000000-0000-0000-0000-000000000000").Ok?
  {
    var g4 := "0000";
    var g8 := "00000000";
    var g12 := "000000000000";
    JoinedGroupsAreUuid(g8, g4, g4, g4, g12);
    assert Join(g8, g4, g4, g4, g12) == "00000000-0000-0000-0000-000000000000";
  }
}
