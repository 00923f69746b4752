/** The earlier single-file application (app.py). It works on the same
    prompts table but its model has no username or response column, its
    to_dict shows fewer fields, its create checks only emptiness, and its
    update checks the body before the code. Column limits it does not check
    itself are still enforced by the database at commit. */
module LegacyApp {
  import opened Api
  import opened PyStr
  import opened Uuid4
  import opened Models
  import opened Rules
  import opened Utils
  import Routes

  const LegacyReadKeys: set<string> := {"id", "title", "text", "created_at", "read_only"}

  /** The legacy to_dict(): id, title, text, created_at and read_only only. */
  function LegacyToDict(p: Prompt): (d: Dict)
    ensures d.Keys == LegacyReadKeys
    ensures "modification_code" !in d && "username" !in d && "response" !in d
  {
    map[
      "id" := JStr(p.id),
      "title" := JStr(p.title),
      "text" := JStr(p.text),
      "created_at" := (match p.createdAt case Some(t) => JTime(t) case None => JNull),
      "read_only" := JBool(p.readOnly)]
  }

  /** The legacy projection tells rows apart by exactly these five fields. */
  lemma LegacyToDictShowsFiveFields(p: Prompt, q: Prompt)
    ensures LegacyToDict(p) == LegacyToDict(q) <==>
              p.id == q.id && p.title == q.title && p.text == q.text
              && p.createdAt == q.createdAt && p.readOnly == q.readOnly
  {
    if LegacyToDict(p) == LegacyToDict(q) {
      assert LegacyToDict(p)["id"] == LegacyToDict(q)["id"];
      assert LegacyToDict(p)["title"] == LegacyToDict(q)["title"];
      assert LegacyToDict(p)["text"] == LegacyToDict(q)["text"];
      assert LegacyToDict(p)["created_at"] == LegacyToDict(q)["created_at"];
      assert LegacyToDict(p)["read_only"] == LegacyToDict(q)["read_only"];
    }
  }

  /** GET /prompts/<id>. */
  method LegacyGetPrompt(db: PromptTable, id: string) returns (r: Reply)
    ensures r.OkItem? <==> id in db.rows
    ensures r.OkItem? ==> r.item == LegacyToDict(db.rows[id])
    ensures !r.OkItem? ==> r == Err(NotFound)
  {
    if id in db.rows {
      r := OkItem(LegacyToDict(db.rows[id]));
    } else {
      r := Err(NotFound);
    }
  }

  /** The legacy create checks: title and text present, strings, and not
      empty once stripped. No length check and no username. */
  function LegacyValidate(body: Option<Dict>): (r: Result<(string, string)>)
    ensures body.None? || "title" !in body.value || "text" !in body.value ==> r == Fail(BadRequest)
    ensures r == Fail(InternalError) <==>
              body.Some? && "title" in body.value && "text" in body.value
              && !(body.value["title"].JStr? && body.value["text"].JStr?)
    ensures r.Ok? ==> body.Some? && body.value["title"].JStr? && body.value["text"].JStr?
                      && r.value.0 == Strip(body.value["title"].s) && r.value.1 == Strip(body.value["text"].s)
                      && r.value.0 != "" && r.value.1 != ""
    ensures body.Some? && "title" in body.value && "text" in body.value
            && body.value["title"].JStr? && body.value["text"].JStr? ==>
              (r.Ok? <==> !AllSpace(body.value["title"].s) && !AllSpace(body.value["text"].s))
    ensures r.Fail? ==> r.status == BadRequest || r.status == InternalError
  {
    if body.None? || "title" !in body.value || "text" !in body.value then Fail(BadRequest)
    else
      var b := body.value;
      if !b["title"].JStr? || !b["text"].JStr? then Fail(InternalError)
      else
        var title := Strip(b["title"].s);
        var text := Strip(b["text"].s);
        if title == "" || text == "" then Fail(BadRequest) else Ok((title, text))
  }

  /** Lines 83-86 of add_prompt: draw one code, then draw again for as long
      as a stored prompt holds the current one. Returns the code and the
      number of draws, or None once the supplied draws run out. */
  method LegacyNewCode(db: PromptTable, draws: seq<Uuid>) returns (code: Option<string>, used: nat)
    ensures used <= |draws|
    ensures code.Some? ==> 0 < used && code.value == CodeOf(draws[used - 1]) && code.value !in Codes(db.rows)
    ensures code.Some? ==> forall i :: 0 <= i < used - 1 ==> CodeOf(draws[i]) in Codes(db.rows)
    ensures code.None? <==> forall i :: 0 <= i < |draws| ==> CodeOf(draws[i]) in Codes(db.rows)
  {
    if |draws| == 0 {
      return None, 0;
    }
    var candidate := CodeOf(draws[0]);
    used := 1;
    while candidate in Codes(db.rows)
      invariant 1 <= used <= |draws|
      invariant candidate == CodeOf(draws[used - 1])
      invariant forall i :: 0 <= i < used - 1 ==> CodeOf(draws[i]) in Codes(db.rows)
      decreases |draws| - used
    {
      if used == |draws| {
        return None, used;
      }
      candidate := CodeOf(draws[used]);
      used := used + 1;
    }
    code := Some(candidate);
  }

  /** POST /prompts in app.py. The code comes from LegacyNewCode; a
      title over 150 characters passes the handler
      and is refused by the database at commit, which is reported as 500. */
  method LegacyAddPrompt(db: PromptTable, body: Option<Dict>, codeDraws: seq<Uuid>, idDraw: Uuid, now: nat)
    returns (r: Reply)
    requires db.Valid()
    modifies db
    ensures db.Valid()
    ensures LegacyValidate(body).Fail? ==> r == Err(LegacyValidate(body).status)
    ensures !r.Created? ==> db.rows == old(db.rows)
    ensures LegacyValidate(body).Ok? ==>
              (r.Created? <==> |LegacyValidate(body).value.0| <= MaxTitleLength
                               && UuidString(idDraw) !in old(db.rows)
                               && exists i :: 0 <= i < |codeDraws| && CodeOf(codeDraws[i]) !in Codes(old(db.rows)))
    ensures LegacyValidate(body).Ok? && !r.Created? ==> r == Err(InternalError)
    ensures r.Created? ==>
              var v := LegacyValidate(body).value;
              var id := UuidString(idDraw);
              && LegacyValidate(body).Ok?
              && id !in old(db.rows) && id in db.rows
              && db.rows == old(db.rows)[id := db.rows[id]]
              && db.rows[id].title == v.0 && db.rows[id].text == v.1
              && db.rows[id].username.None? && db.rows[id].response.None?
              && !db.rows[id].readOnly && db.rows[id].createdAt == Some(now)
              && db.rows[id].modificationCode !in Codes(old(db.rows))
              && r.item == LegacyToDict(db.rows[id])["modification_code" := JStr(db.rows[id].modificationCode)]
  {
    var fields := LegacyValidate(body);
    if fields.Fail? {
      return Err(fields.status);
    }
    var code, _ := LegacyNewCode(db, codeDraws);
    if code.None? {
      return Err(InternalError);
    }
    var p := Prompt(UuidString(idDraw), fields.value.0, fields.value.1, None, None, code.value, Some(now), false);
    Routes.AddOneRow(db.rows, p);
    var ok := db.CommitInserts([p]);
    if !ok {
      return Err(InternalError);
    }
    r := Created(LegacyToDict(p)["modification_code" := JStr(p.modificationCode)]);
  }

  /** update_prompt's refusals in app.py: 404, then 403 for a read-only
      row, then 400 for a missing body, and only then 403 for a bad code. */
  function LegacyUpdateRefusal(rows: map<string, Prompt>, id: string, header: Option<string>, body: Option<Dict>)
    : (e: Option<Status>)
    ensures id !in rows ==> e == Some(NotFound)
    ensures id in rows && rows[id].readOnly ==> e == Some(Forbidden)
    ensures id in rows && !rows[id].readOnly && !HasBody(body) ==> e == Some(BadRequest)
    ensures id in rows && !rows[id].readOnly && HasBody(body) && !Authorized(header, rows[id].modificationCode)
            ==> e == Some(Forbidden)
    ensures e.None? <==> AccessRefusal(rows, id, header).None? && HasBody(body)
  {
    if id !in rows then Some(NotFound)
    else if rows[id].readOnly then Some(Forbidden)
    else if !HasBody(body) then Some(BadRequest)
    else if !Authorized(header, rows[id].modificationCode) then Some(Forbidden)
    else None
  }

  /** The two generations refuse the same requests, and for the same
      reason except in one case: a wrong code together with a missing body
      is 403 in app/routes.py but 400 in app.py. */
  lemma RefusalOrderDiffers(rows: map<string, Prompt>, id: string, header: Option<string>, body: Option<Dict>)
    ensures Routes.UpdateRefusal(rows, id, header, body).None? <==> LegacyUpdateRefusal(rows, id, header, body).None?
    ensures Routes.UpdateRefusal(rows, id, header, body) != LegacyUpdateRefusal(rows, id, header, body) <==>
              id in rows && !rows[id].readOnly && !Authorized(header, rows[id].modificationCode) && !HasBody(body)
    ensures id in rows && !rows[id].readOnly && !Authorized(header, rows[id].modificationCode) && !HasBody(body) ==>
              Routes.UpdateRefusal(rows, id, header, body) == Some(Forbidden)
              && LegacyUpdateRefusal(rows, id, header, body) == Some(BadRequest)
  {
    if id in rows && !rows[id].readOnly {
      if !Authorized(header, rows[id].modificationCode) {
        assert AccessRefusal(rows, id, header) == Some(Forbidden);
      } else {
        assert AccessRefusal(rows, id, header).None?;
      }
    }
  }

  /** The legacy field rules: title and text under the trimmed-field rule,
      with no length cap and no response field. */
  function LegacyApplyUpdate(p: Prompt, body: Dict): (r: Result<Prompt>)
    ensures r.Ok? <==> NextTrimmed(p.title, Get(body, "title")).Ok? && NextTrimmed(p.text, Get(body, "text")).Ok?
    ensures r.Ok? ==> r.value == p.(title := NextTrimmed(p.title, Get(body, "title")).value,
                                    text := NextTrimmed(p.text, Get(body, "text")).value)
    ensures r.Fail? ==> r.status == InternalError
  {
    match NextTrimmed(p.title, Get(body, "title"))
    case Fail(e) => Fail(e)
    case Ok(title) =>
      match NextTrimmed(p.text, Get(body, "text"))
      case Fail(e) => Fail(e)
      case Ok(text) => Ok(p.(title := title, text := text))
  }

  /** Lines 124-134 of update_prompt: title, then text, with the updated
      flag. */
  method LegacyApplyBody(p0: Prompt, b: Dict) returns (res: Result<Prompt>, updated: bool)
    ensures res == LegacyApplyUpdate(p0, b)
    ensures res.Ok? ==> (updated <==> res.value != p0)
  {
    var p := p0;
    updated := false;
    if "title" in b {
      if !b["title"].JStr? {
        return Fail(InternalError), updated;
      }
      var newTitle := Strip(b["title"].s);
      if newTitle != "" && newTitle != p.title {
        p := p.(title := newTitle);
        updated := true;
      }
    }
    ghost var p1 := p;
    assert NextTrimmed(p0.title, Get(b, "title")) == Ok(p1.title) && p1 == p0.(title := p1.title);
    if "text" in b {
      if !b["text"].JStr? {
        return Fail(InternalError), updated;
      }
      var newText := Strip(b["text"].s);
      if newText != "" && newText != p.text {
        p := p.(text := newText);
        updated := true;
      }
    }
    res := Ok(p);
  }

  /** PUT /prompts/<id> in app.py. Nothing changed: the row as it was, no
      commit. Something changed: one commit, which the database refuses
      (500, rolled back) when the new title is over 150 characters. */
  method LegacyUpdatePrompt(db: PromptTable, id: string, header: Option<string>, body: Option<Dict>)
    returns (r: Reply)
    requires db.Valid()
    modifies db
    ensures db.Valid()
    ensures LegacyUpdateRefusal(old(db.rows), id, header, body).Some? ==>
              r == Err(LegacyUpdateRefusal(old(db.rows), id, header, body).value)
    ensures LegacyUpdateRefusal(old(db.rows), id, header, body).None? ==>
              var u := LegacyApplyUpdate(old(db.rows)[id], body.value);
              && (u.Fail? ==> r == Err(u.status))
              && (u.Ok? && RowFits(u.value) ==> r == OkItem(LegacyToDict(u.value)) && db.rows == old(db.rows)[id := u.value])
              && (u.Ok? && !RowFits(u.value) ==> r == Err(InternalError))
    ensures !r.OkItem? ==> db.rows == old(db.rows)
  {
    if id !in db.rows {
      return Err(NotFound);
    }
    var p := db.rows[id];
    if p.readOnly {
      return Err(Forbidden);
    }
    if body.None? || body.value == map[] {
      return Err(BadRequest);
    }
    if !Authorized(header, p.modificationCode) {
      return Err(Forbidden);
    }
    var res, updated := LegacyApplyBody(p, body.value);
    if res.Fail? {
      return Err(res.status);
    }
    if updated {
      ReplaceRowFits(db.rows, res.value);
      var ok := db.CommitChanges(db.rows[id := res.value]);
      if !ok {
        return Err(InternalError);
      }
    }
    r := OkItem(LegacyToDict(res.value));
  }

  /** A replacement row with the same key and code is accepted exactly when
      it fits its columns. */
  lemma ReplaceRowFits(rows: map<string, Prompt>, p: Prompt)
    requires TableConstraints(rows) && p.id in rows && p.modificationCode == rows[p.id].modificationCode
    ensures TableConstraints(rows[p.id := p]) <==> RowFits(p)
  {
    assert rows[p.id := p][p.id] == p;
  }

  /** DELETE /prompts/<id> in app.py: the same access checks as the newer
      handler, then only that row is removed. */
  method LegacyDeletePrompt(db: PromptTable, id: string, header: Option<string>) returns (r: Reply)
    requires db.Valid()
    modifies db
    ensures db.Valid()
    ensures AccessRefusal(old(db.rows), id, header).Some? ==>
              r == Err(AccessRefusal(old(db.rows), id, header).value) && db.rows == old(db.rows)
    ensures AccessRefusal(old(db.rows), id, header).None? ==> r == NoContent && db.rows == old(db.rows) - {id}
  {
    if id !in db.rows {
      return Err(NotFound);
    }
    var p := db.rows[id];
    if p.readOnly {
      return Err(Forbidden);
    }
    if !Authorized(header, p.modificationCode) {
      return Err(Forbidden);
    }
    var _ := db.CommitChanges(db.rows - {id});
    r := NoContent;
  }
}
