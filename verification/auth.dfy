/** Extraction of the bearer token from the Authorization header
    (main.py `get_drive_service`). Building the Drive client from the token
    is outside this model. */
module Auth {
  import opened Results
  import opened Strings

  const BearerPrefix := "Bearer "
  const InvalidHeader := "Invalid Authorization header"

  /** The header must start with "Bearer " (case-sensitive); the token is
      then piece 1 of `header.split(" ")`, i.e. the text between the first and
      the second space (or the end). */
  function ParseBearer(authorization: string): (r: Result<string>)
    ensures r.Err? <==> !StartsWith(authorization, BearerPrefix)
    ensures r.Err? ==> r.error == Unauthorized(InvalidHeader)
    ensures r.Ok? ==> StartsWith(authorization[|BearerPrefix|..], r.value)
    ensures r.Ok? ==> ' ' !in r.value
    ensures r.Ok? ==> |BearerPrefix| + |r.value| == |authorization|
                      || authorization[|BearerPrefix| + |r.value|] == ' '
  {
    if !StartsWith(authorization, BearerPrefix) then Err(Unauthorized(InvalidHeader))
    else
      var rest := authorization[|BearerPrefix|..];
      assert authorization == "Bearer" + [' '] + rest;
      SplitAfterSeparator("Bearer", rest, ' ');
      Ok(Split(authorization, ' ')[1])
  }

  /** "Bearer " alone yields the empty token. */
  lemma ParseBearerEmptyToken()
    ensures ParseBearer("Bearer ") == Ok("")
  {
  }

  /** A doubled space after the scheme also yields the empty token. */
  lemma ParseBearerDoubleSpace()
    ensures ParseBearer("Bearer  x") == Ok("")
  {
    var h := "Bearer  x";
    assert StartsWith(h, BearerPrefix);
    assert h[|BearerPrefix|..] == " x";
  }

  /** Two space-free prefixes of `tail` that both end at a space or at the
      end of `tail` are the same word. */
  lemma FirstWordUnique(tail: string, v: string, t: string)
    requires StartsWith(tail, v) && ' ' !in v && (|v| == |tail| || tail[|v|] == ' ')
    requires StartsWith(tail, t) && ' ' !in t && (|t| == |tail| || tail[|t|] == ' ')
    ensures v == t
  {
    assert forall j :: 0 <= j < |t| ==> tail[j] != ' ' by {
      forall j | 0 <= j < |t| ensures tail[j] != ' ' { assert tail[j] == t[j]; }
    }
    assert forall j :: 0 <= j < |v| ==> tail[j] != ' ' by {
      forall j | 0 <= j < |v| ensures tail[j] != ' ' { assert tail[j] == v[j]; }
    }
    assert |v| == |t|;
  }

  /** The token is the first word after the scheme; later words are dropped. */
  lemma TokenIsFirstWord(t: string, rest: string)
    requires ' ' !in t
    ensures ParseBearer(BearerPrefix + t + [' '] + rest) == Ok(t)
  {
    var h := BearerPrefix + t + [' '] + rest;
    assert StartsWith(h, BearerPrefix);
    var tail := h[|BearerPrefix|..];
    assert tail == t + [' '] + rest;
    assert tail[|t|] == ' ';
    FirstWordUnique(tail, ParseBearer(h).value, t);
  }

  /** A token with no further space is the whole remainder of the header. */
  lemma TokenIsRemainder(t: string)
    requires ' ' !in t
    ensures ParseBearer(BearerPrefix + t) == Ok(t)
  {
    var h := BearerPrefix + t;
    assert StartsWith(h, BearerPrefix);
    var tail := h[|BearerPrefix|..];
    assert tail == t;
    FirstWordUnique(tail, ParseBearer(h).value, t);
  }

  /** The scheme is matched case-sensitively. */
  lemma ParseBearerLowerCaseScheme()
    ensures ParseBearer("bearer abc").Err?
    ensures ParseBearer("").Err?
  {
    assert "bearer abc"[0] != BearerPrefix[0];
  }
}
