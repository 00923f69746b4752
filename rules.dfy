/** The two rules both generations of handlers share: who may change a
    record, and how a title or text field of an update body is applied. */
module Rules {
  import opened Api
  import opened PyStr
  import opened Models

  /** The X-Modification-Code check: a missing or empty header, or one that
      differs from the stored code, is refused. */
  predicate Authorized(header: Option<string>, code: string) {
    header.Some? && header.value != "" && header.value == code
  }

  /** Only the stored, non-empty code itself opens a record. */
  lemma AuthorizedOnlyByStoredCode(header: Option<string>, code: string)
    ensures Authorized(header, code) <==> code != "" && header == Some(code)
  {
  }

  /** The checks update and delete both start with, in their order: an
      unknown id is 404; a read-only row is 403 whatever code is sent; a
      missing or wrong code is 403. None means the caller may go on. */
  function AccessRefusal(rows: map<string, Prompt>, id: string, header: Option<string>): (e: Option<Status>)
    ensures id !in rows ==> e == Some(NotFound)
    ensures id in rows && rows[id].readOnly ==> e == Some(Forbidden)
    ensures id in rows && !Authorized(header, rows[id].modificationCode) ==> e == Some(Forbidden)
    ensures e.None? <==> id in rows && !rows[id].readOnly && Authorized(header, rows[id].modificationCode)
    ensures e.Some? ==> e.value == NotFound || e.value == Forbidden
  {
    if id !in rows then Some(NotFound)
    else if rows[id].readOnly then Some(Forbidden)
    else if !Authorized(header, rows[id].modificationCode) then Some(Forbidden)
    else None
  }

  /** `not request.json`: a body counts only when it is a non-empty JSON
      object. */
  predicate HasBody(body: Option<Dict>) {
    body.Some? && body.value != map[]
  }

  /** The rule for title and text in an update: a string field replaces the
      current value with its stripped form when that is non-empty and
      different; an empty or whitespace-only string is ignored; a field of
      any other JSON type makes .strip() raise, which surfaces as 500. */
  function NextTrimmed(current: string, given: Option<Json>): (r: Result<string>)
    ensures given.None? ==> r == Ok(current)
    ensures given.Some? && !given.value.JStr? ==> r == Fail(InternalError)
    ensures given.Some? && given.value.JStr? ==> r.Ok?
    ensures r.Ok? && r.value != current ==>
              given.Some? && given.value.JStr? && r.value == Strip(given.value.s) && r.value != [] && Trimmed(r.value)
    ensures given.Some? && given.value.JStr? && Strip(given.value.s) != [] ==> r == Ok(Strip(given.value.s))
  {
    match given
    case None => Ok(current)
    case Some(j) =>
      if !j.JStr? then Fail(InternalError)
      else
        var next := Strip(j.s);
        if next != "" && next != current then Ok(next) else Ok(current)
  }
}
