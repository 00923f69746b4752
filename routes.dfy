/** The handlers of the /api blueprint (app/routes.py). Each handler reads
    the table, and the ones that write commit at most once, at the end; a
    handler that returns an error has changed nothing. */
module Routes {
  import opened Api
  import opened PyStr
  import opened Uuid4
  import opened Models
  import opened Rules
  import opened Utils

  const MaxResponseLength := 10000

  // ---------------------------------------------------------------------
  // Queries: which rows a SELECT returns and in what order
  // ---------------------------------------------------------------------

  /** The WHERE clauses the handlers use. */
  datatype Filter =
    | AllRows
    | TitleLike(pattern: string)   // title ILIKE '%pattern%'
    | IdIn(ids: seq<Json>)         // id IN (ids)

  /** Whether a row passes the WHERE clause: ILIKE as a case-insensitive
      substring test, IN as membership of the id among the given values. */
  predicate Keeps(f: Filter, p: Prompt) {
    match f
    case AllRows => true
    case TitleLike(pattern) => Contains(Lower(p.title), Lower(pattern))
    case IdIn(ids) => JStr(p.id) in ids
  }

  /** An empty pattern keeps every row, a title matches itself whatever its
      case, and an empty IN list keeps none. */
  lemma KeepsEdges(f: Filter, p: Prompt)
    ensures f.TitleLike? && f.pattern == [] ==> Keeps(f, p)
    ensures f.TitleLike? && Lower(f.pattern) == Lower(p.title) ==> Keeps(f, p)
    ensures f.IdIn? && f.ids == [] ==> !Keeps(f, p)
  {
    if f.TitleLike? && (f.pattern == [] || Lower(f.pattern) == Lower(p.title)) {
      assert ContainsAt(Lower(p.title), Lower(f.pattern), 0);
    }
  }

  /** p is a stored row that the filter keeps. */
  ghost predicate Selected(rows: map<string, Prompt>, f: Filter, p: Prompt) {
    p.id in rows && rows[p.id] == p && Keeps(f, p)
  }

  /** s holds every selected row exactly once and nothing else. */
  ghost predicate IsSelection(rows: map<string, Prompt>, f: Filter, s: seq<Prompt>) {
    forall p :: multiset(s)[p] == if Selected(rows, f, p) then 1 else 0
  }

  /** query.filter(f).all() in the table's own order: one scan over the
      rows, keeping those the filter accepts. */
  method ScanTable(db: PromptTable, f: Filter) returns (found: seq<Prompt>)
    requires db.Valid()
    ensures IsSelection(db.rows, f, found)
  {
    found := [];
    var pending := db.rows.Keys;
    while pending != {}
      invariant pending <= db.rows.Keys
      invariant forall p :: multiset(found)[p] == if Selected(db.rows, f, p) && p.id !in pending then 1 else 0
      decreases |pending|
    {
      var k :| k in pending;
      var p := db.rows[k];
      if Keeps(f, p) {
        found := found + [p];
      }
      pending := pending - {k};
    }
  }

  /** created_at ordering as PostgreSQL sorts a nullable column: NULL
      compares greater than every timestamp. */
  predicate CreatedLe(a: Option<nat>, b: Option<nat>) {
    b.None? || (a.Some? && a.value <= b.value)
  }

  predicate InOrder(p: Prompt, q: Prompt, ascending: bool) {
    if ascending then CreatedLe(p.createdAt, q.createdAt) else CreatedLe(q.createdAt, p.createdAt)
  }

  predicate SortedByCreated(s: seq<Prompt>, ascending: bool) {
    forall i, j :: 0 <= i < j < |s| ==> InOrder(s[i], s[j], ascending)
  }

  function InsertByCreated(p: Prompt, s: seq<Prompt>, ascending: bool): (r: seq<Prompt>)
    requires SortedByCreated(s, ascending)
    ensures SortedByCreated(r, ascending)
    ensures multiset(r) == multiset(s) + multiset{p}
  {
    if s == [] || InOrder(p, s[0], ascending) then
      InsertAtFront(p, s, ascending);
      [p] + s
    else
      var rest := InsertByCreated(p, s[1..], ascending);
      assert s == [s[0]] + s[1..];
      InsertBehindHead(p, s, rest, ascending);
      [s[0]] + rest
  }

  lemma InsertAtFront(p: Prompt, s: seq<Prompt>, ascending: bool)
    requires SortedByCreated(s, ascending)
    requires s == [] || InOrder(p, s[0], ascending)
    ensures SortedByCreated([p] + s, ascending)
  {
    var r := [p] + s;
    forall i, j | 0 <= i < j < |r| ensures InOrder(r[i], r[j], ascending) {
      if i == 0 && j > 1 {
        assert InOrder(s[0], s[j - 1], ascending);
      }
    }
  }

  lemma InsertBehindHead(p: Prompt, s: seq<Prompt>, rest: seq<Prompt>, ascending: bool)
    requires SortedByCreated(s, ascending) && s != [] && !InOrder(p, s[0], ascending)
    requires SortedByCreated(rest, ascending) && multiset(rest) == multiset(s[1..]) + multiset{p}
    ensures SortedByCreated([s[0]] + rest, ascending)
  {
    var r := [s[0]] + rest;
    forall i, j | 0 <= i < j < |r| ensures InOrder(r[i], r[j], ascending) {
      if i == 0 {
        var x := rest[j - 1];
        assert x in multiset(rest);
        if x != p {
          assert x in multiset(s[1..]);
          var k :| 0 <= k < |s[1..]| && s[1..][k] == x;
          assert s[k + 1] == x;
        }
      } else {
        assert r[i] == rest[i - 1] && r[j] == rest[j - 1];
      }
    }
  }

  /** ORDER BY created_at ASC or DESC: a sorted permutation of s. Rows with
      equal timestamps may come in any order, as in the database. */
  function SortByCreated(s: seq<Prompt>, ascending: bool): (r: seq<Prompt>)
    ensures SortedByCreated(r, ascending)
    ensures multiset(r) == multiset(s)
  {
    if s == [] then []
    else
      assert s == [s[0]] + s[1..];
      InsertByCreated(s[0], SortByCreated(s[1..], ascending), ascending)
  }

  /** The read projection of each row, in order. */
  function Views(s: seq<Prompt>): (r: seq<Dict>)
    ensures |r| == |s|
    ensures forall i :: 0 <= i < |s| ==> r[i] == ToDict(s[i])
    ensures forall d :: d in r ==> "modification_code" !in d
  {
    seq(|s|, i requires 0 <= i < |s| => ToDict(s[i]))
  }

  /** The filter_title argument: applied only when present and non-empty. */
  function TitleFilter(filterTitle: Option<string>): (f: Filter)
    ensures f.AllRows? <==> filterTitle.None? || filterTitle.value == ""
    ensures f.TitleLike? ==> f.pattern == filterTitle.value
  {
    if filterTitle.Some? && filterTitle.value != "" then TitleLike(filterTitle.value) else AllRows
  }

  /** The order argument: ascending only when it lowercases to "asc";
      absent means "desc". */
  function Ascending(order: Option<string>): (asc: bool)
    ensures order.None? ==> !asc
    ensures asc <==> order.Some? && |order.value| == 3 && LowerChar(order.value[0]) == 'a'
                     && LowerChar(order.value[1]) == 's' && LowerChar(order.value[2]) == 'c'
  {
    Lower(order.GetOr("desc")) == "asc"
  }

  lemma AscendingExamples()
    ensures Ascending(Some("asc")) && Ascending(Some("ASC")) && Ascending(Some("aSc"))
    ensures !Ascending(Some("desc")) && !Ascending(Some("ascending")) && !Ascending(Some(""))
  {
    assert Lower("ASC") == "asc";
    assert Lower("aSc") == "asc";
    assert Lower("desc") != "asc" by { assert |Lower("desc")| == 4; }
    assert Lower("ascending") != "asc" by { assert |Lower("ascending")| == 9; }
  }

  /** GET /prompts: the rows whose title contains filter_title (ignoring
      ASCII case), ordered by created_at, each without its code. */
  method GetPrompts(db: PromptTable, filterTitle: Option<string>, order: Option<string>) returns (r: Reply)
    requires db.Valid()
    ensures r.OkList?
    ensures exists s :: IsSelection(db.rows, TitleFilter(filterTitle), s)
                        && SortedByCreated(s, Ascending(order)) && r.items == Views(s)
    ensures forall d :: d in r.items ==> "modification_code" !in d
  {
    var found := ScanTable(db, TitleFilter(filterTitle));
    var sorted := SortByCreated(found, Ascending(order));
    assert IsSelection(db.rows, TitleFilter(filterTitle), sorted);
    r := OkList(Views(sorted));
  }

  /** GET /prompts/<id>. */
  method GetPrompt(db: PromptTable, id: string) returns (r: Reply)
    ensures r.OkItem? <==> id in db.rows
    ensures r.OkItem? ==> r.item == ToDict(db.rows[id]) && "modification_code" !in r.item
    ensures !r.OkItem? ==> r == Err(NotFound)
  {
    if id in db.rows {
      r := OkItem(ToDict(db.rows[id]));
    } else {
      r := Err(NotFound);
    }
  }

  /** GET /prompts/random: 404 on an empty table, otherwise some row. Which
      row is left open; the source picks one at random. */
  method GetRandomPrompt(db: PromptTable) returns (r: Reply)
    ensures r.Err? <==> db.rows == map[]
    ensures r.Err? ==> r.status == NotFound
    ensures !r.Err? ==> r.OkItem? && exists k :: k in db.rows && r.item == ToDict(db.rows[k])
  {
    if db.rows == map[] {
      r := Err(NotFound);
    } else {
      var k :| k in db.rows;
      r := OkItem(ToDict(db.rows[k]));
    }
  }

  /** The body of POST /prompts/batch: not JSON at all, or a decoded value. */
  datatype BatchRequest = NotJson | JsonBody(data: Json)

  /** A present, non-empty JSON list. */
  predicate NonEmptyList(ids: Option<Json>) {
    ids.Some? && ids.value.JList? && ids.value.items != []
  }

  /** The list items the id IN (...) query can compare with a text
      column: strings, and nulls, which match nothing. A number, boolean,
      list or object makes the database refuse the query. */
  predicate Bindable(items: seq<Json>) {
    forall i :: 0 <= i < |items| ==> items[i].JStr? || items[i].JNull?
  }

  /** POST /prompts/batch: 400 unless ids is a non-empty list; 500 when an
      item is neither a string nor null; then the stored rows whose id is
      listed, each once, unknown ids ignored. A body that is JSON but not an
      object fails on .get() with 500. */
  method GetPromptsBatch(db: PromptTable, req: BatchRequest) returns (r: Reply)
    requires db.Valid()
    ensures req.NotJson? ==> r == Err(BadRequest)
    ensures req.JsonBody? && !req.data.JObject? ==> r == Err(InternalError)
    ensures req.JsonBody? && req.data.JObject? && !NonEmptyList(Get(req.data.fields, "ids")) ==> r == Err(BadRequest)
    ensures req.JsonBody? && req.data.JObject? && NonEmptyList(Get(req.data.fields, "ids"))
            && !Bindable(Get(req.data.fields, "ids").value.items)
            ==> r == Err(InternalError)
    ensures req.JsonBody? && req.data.JObject? && NonEmptyList(Get(req.data.fields, "ids"))
            && Bindable(Get(req.data.fields, "ids").value.items)
            ==> r.OkList? && exists s :: IsSelection(db.rows, IdIn(Get(req.data.fields, "ids").value.items), s) && r.items == Views(s)
  {
    if req.NotJson? {
      return Err(BadRequest);
    }
    if !req.data.JObject? {
      return Err(InternalError);
    }
    var ids := Get(req.data.fields, "ids");
    if ids.None? || !Truthy(ids.value) || !ids.value.JList? {
      return Err(BadRequest);
    }
    if ids.value.items == [] {
      // The explicit empty-list branch of the source: an empty list is falsy, so it was refused above.
      assert false;
    }
    if !Bindable(ids.value.items) {
      return Err(InternalError);
    }
    var found := ScanTable(db, IdIn(ids.value.items));
    r := OkList(Views(found));
  }

  // ---------------------------------------------------------------------
  // POST /prompts
  // ---------------------------------------------------------------------

  /** The validated fields of a new prompt. */
  datatype NewFields = NewFields(title: string, text: string, username: Option<string>)

  /** The field of a JSON object body, when it is a string. */
  function StringField(body: Dict, key: string): Option<string> {
    if key in body && body[key].JStr? then Some(body[key].s) else None
  }

  /** Every field add_prompt calls .strip() on is a string: title and text,
      and username when given. */
  predicate StripsSucceed(body: Dict) {
    && StringField(body, "title").Some?
    && StringField(body, "text").Some?
    && ("username" in body ==> StringField(body, "username").Some?)
  }

  /** The stored username: the stripped username, or null when it is absent
      or strips to nothing. */
  function UsernameOf(body: Dict): (u: Option<string>)
    requires "username" in body ==> StringField(body, "username").Some?
    ensures u.Some? ==> "username" in body && u.value == Strip(StringField(body, "username").value) && u.value != ""
    ensures u.None? <==> "username" !in body || AllSpace(StringField(body, "username").value)
  {
    if "username" in body && Strip(body["username"].s) != "" then Some(Strip(body["username"].s)) else None
  }

  /** The checks add_prompt makes before touching the table, in its order:
      title and text present, the fields strip, the stripped title and text
      are non-empty, the title is at most 150 characters, the username at
      most 80. */
  function ValidateNewPrompt(body: Option<Dict>): (r: Result<NewFields>)
    ensures body.None? || "title" !in body.value || "text" !in body.value ==> r == Fail(BadRequest)
    ensures r.Fail? ==> r.status == BadRequest || r.status == InternalError
    ensures r == Fail(InternalError) <==> body.Some? && "title" in body.value && "text" in body.value && !StripsSucceed(body.value)
    ensures body.Some? && StripsSucceed(body.value)
            && (AllSpace(StringField(body.value, "title").value) || AllSpace(StringField(body.value, "text").value))
            ==> r == Fail(BadRequest)
    ensures r.Ok? ==> body.Some? && StripsSucceed(body.value)
    ensures r.Ok? ==>
              && r.value.title == Strip(StringField(body.value, "title").value)
              && r.value.text == Strip(StringField(body.value, "text").value)
              && r.value.username == UsernameOf(body.value)
              && r.value.title != "" && r.value.text != ""
              && |r.value.title| <= MaxTitleLength
              && (r.value.username.Some? ==> |r.value.username.value| <= MaxUsernameLength)
    ensures body.Some? && StripsSucceed(body.value)
            && |Strip(StringField(body.value, "title").value)| > MaxTitleLength
            ==> r == Fail(BadRequest)
    ensures body.Some? && StripsSucceed(body.value) && UsernameOf(body.value).Some?
            && |UsernameOf(body.value).value| > MaxUsernameLength
            ==> r == Fail(BadRequest)
    ensures body.Some? && StripsSucceed(body.value)
            && Strip(StringField(body.value, "title").value) != ""
            && Strip(StringField(body.value, "text").value) != ""
            && |Strip(StringField(body.value, "title").value)| <= MaxTitleLength
            && (UsernameOf(body.value).Some? ==> |UsernameOf(body.value).value| <= MaxUsernameLength)
            ==> r.Ok?
  {
    if body.None? || "title" !in body.value || "text" !in body.value then Fail(BadRequest)
    else
      var b := body.value;
      if !b["title"].JStr? || !b["text"].JStr? then Fail(InternalError)
      else if "username" in b && !b["username"].JStr? then Fail(InternalError)
      else
        var title := Strip(b["title"].s);
        var text := Strip(b["text"].s);
        var username := UsernameOf(b);
        if title == "" || text == "" then Fail(BadRequest)
        else if |title| > MaxTitleLength then Fail(BadRequest)
        else if username.Some? && |username.value| > MaxUsernameLength then Fail(BadRequest)
        else Ok(NewFields(title, text, username))
  }

  /** The creation reply: the read projection plus the modification code,
      the only place the code is ever sent. */
  function CreationDict(p: Prompt): (d: Dict)
    ensures d.Keys == ReadKeys + {"modification_code"}
    ensures d["modification_code"] == JStr(p.modificationCode)
    ensures forall k :: k in ReadKeys ==> d[k] == ToDict(p)[k]
  {
    ToDict(p)["modification_code" := JStr(p.modificationCode)]
  }

  /** POST /prompts. codeDraws are the UUIDs the code generator would draw,
      idDraw the UUID of the new primary key, now the insertion time. */
  method AddPrompt(db: PromptTable, body: Option<Dict>, codeDraws: seq<Uuid>, idDraw: Uuid, now: nat) returns (r: Reply)
    requires db.Valid()
    modifies db
    ensures db.Valid()
    ensures ValidateNewPrompt(body).Fail? ==> r == Err(ValidateNewPrompt(body).status)
    ensures !r.Created? ==> db.rows == old(db.rows)
    ensures ValidateNewPrompt(body).Ok? ==>
              (r.Created? <==> UuidString(idDraw) !in old(db.rows)
                               && exists i :: 0 <= i < |codeDraws| && CodeOf(codeDraws[i]) !in Codes(old(db.rows)))
    ensures ValidateNewPrompt(body).Ok? && !r.Created? ==> r == Err(InternalError)
    ensures r.Created? ==>
              var v := ValidateNewPrompt(body).value;
              var id := UuidString(idDraw);
              && ValidateNewPrompt(body).Ok?
              && id !in old(db.rows) && id in db.rows
              && db.rows == old(db.rows)[id := db.rows[id]]
              && db.rows[id].title == v.title && db.rows[id].text == v.text
              && db.rows[id].username == v.username
              && db.rows[id].response.None? && !db.rows[id].readOnly
              && db.rows[id].createdAt == Some(now)
              && db.rows[id].modificationCode !in Codes(old(db.rows))
              && |db.rows[id].modificationCode| == 8 && IsLowerHex(db.rows[id].modificationCode)
              && r.item == CreationDict(db.rows[id])
  {
    var fields := ValidateNewPrompt(body);
    if fields.Fail? {
      return Err(fields.status);
    }
    var code, _ := GenerateModificationCode(db, codeDraws);
    if code.None? {
      return Err(InternalError);
    }
    var v := fields.value;
    var p := Prompt(UuidString(idDraw), v.title, v.text, v.username, None, code.value, Some(now), false);
    AddOneRow(db.rows, p);
    var ok := db.CommitInserts([p]);
    if !ok {
      return Err(InternalError);
    }
    r := Created(CreationDict(p));
  }

  /** Inserting one row under a fresh key with a fresh code keeps the
      table constraints. */
  lemma AddOneRow(rows: map<string, Prompt>, p: Prompt)
    requires TableConstraints(rows) && p.modificationCode !in Codes(rows)
    ensures AddRows(rows, [p]) == rows[p.id := p]
    ensures Insertable(rows, [p]) <==> p.id !in rows
    ensures p.id !in rows ==> (TableConstraints(AddRows(rows, [p])) <==> RowFits(p))
  {
    assert [p][1..] == [];
    if p.id !in rows {
      assert rows[p.id := p][p.id] == p;
    }
  }

  // ---------------------------------------------------------------------
  // PUT /prompts/<id>
  // ---------------------------------------------------------------------

  /** The fields an update can never change. */
  predicate SameIdentity(p: Prompt, q: Prompt) {
    && p.id == q.id && p.username == q.username && p.modificationCode == q.modificationCode
    && p.createdAt == q.createdAt && p.readOnly == q.readOnly
  }

  /** The title field: applied under the trimmed-field rule, then refused
      with 400 when the new title is over 150 characters. */
  function UpdateTitle(p: Prompt, given: Option<Json>): (r: Result<Prompt>)
    ensures r.Ok? ==> r.value == p.(title := r.value.title)
    ensures r.Ok? && r.value.title != p.title ==>
              given.Some? && given.value.JStr? && r.value.title == Strip(given.value.s)
              && r.value.title != "" && |r.value.title| <= MaxTitleLength
    ensures given.Some? && given.value.JStr? && Strip(given.value.s) != "" && |Strip(given.value.s)| <= MaxTitleLength
            ==> r == Ok(p.(title := Strip(given.value.s)))
    ensures r == Fail(BadRequest) <==>
              given.Some? && given.value.JStr? && Strip(given.value.s) != "" && Strip(given.value.s) != p.title
              && |Strip(given.value.s)| > MaxTitleLength
    ensures r == Fail(InternalError) <==> given.Some? && !given.value.JStr?
    ensures r.Fail? ==> r.status == BadRequest || r.status == InternalError
  {
    match NextTrimmed(p.title, given)
    case Fail(e) => Fail(e)
    case Ok(t) => if t != p.title && |t| > MaxTitleLength then Fail(BadRequest) else Ok(p.(title := t))
  }

  /** The text field: the trimmed-field rule with no length cap. */
  function UpdateText(p: Prompt, given: Option<Json>): (r: Result<Prompt>)
    ensures r.Ok? ==> r.value == p.(text := r.value.text)
    ensures r.Ok? && r.value.text != p.text ==>
              given.Some? && given.value.JStr? && r.value.text == Strip(given.value.s) && r.value.text != ""
    ensures given.Some? && given.value.JStr? && Strip(given.value.s) != "" ==> r == Ok(p.(text := Strip(given.value.s)))
    ensures r.Fail? <==> given.Some? && !given.value.JStr?
    ensures r.Fail? ==> r.status == InternalError
  {
    match NextTrimmed(p.text, given)
    case Fail(e) => Fail(e)
    case Ok(t) => Ok(p.(text := t))
  }

  /** The response field: null clears it; a string is stripped and stored,
      even when empty, unless it is over 10000 characters; any other JSON
      type is refused with 400. */
  function UpdateResponse(p: Prompt, given: Option<Json>): (r: Result<Prompt>)
    ensures r.Ok? ==> r.value == p.(response := r.value.response)
    ensures given.None? ==> r == Ok(p)
    ensures given == Some(JNull) ==> r == Ok(p.(response := None))
    ensures given.Some? && given.value.JStr? && |Strip(given.value.s)| <= MaxResponseLength
            ==> r == Ok(p.(response := Some(Strip(given.value.s))))
    ensures r.Fail? <==> given.Some? && ((given.value.JStr? && |Strip(given.value.s)| > MaxResponseLength)
                                         || !(given.value.JStr? || given.value.JNull?))
    ensures r.Fail? ==> r.status == BadRequest
  {
    match given
    case None => Ok(p)
    case Some(j) =>
      if j.JNull? then Ok(p.(response := None))
      else if j.JStr? then
        var processed := Strip(j.s);
        if |processed| > MaxResponseLength then Fail(BadRequest) else Ok(p.(response := Some(processed)))
      else Fail(BadRequest)
  }

  /** The body of update_prompt after its checks: title, then text, then
      response, stopping at the first refusal. The three fields are
      independent: each rule is applied to the original record. */
  function ApplyUpdate(p: Prompt, body: Dict): (r: Result<Prompt>)
    ensures r.Ok? <==> UpdateTitle(p, Get(body, "title")).Ok? && UpdateText(p, Get(body, "text")).Ok?
                       && UpdateResponse(p, Get(body, "response")).Ok?
    ensures r.Ok? ==> r.value == p.(title := UpdateTitle(p, Get(body, "title")).value.title,
                                    text := UpdateText(p, Get(body, "text")).value.text,
                                    response := UpdateResponse(p, Get(body, "response")).value.response)
    ensures UpdateTitle(p, Get(body, "title")).Fail? ==> r == UpdateTitle(p, Get(body, "title"))
    ensures UpdateTitle(p, Get(body, "title")).Ok? && UpdateText(p, Get(body, "text")).Fail?
            ==> r == UpdateText(p, Get(body, "text"))
    ensures UpdateTitle(p, Get(body, "title")).Ok? && UpdateText(p, Get(body, "text")).Ok?
            && UpdateResponse(p, Get(body, "response")).Fail?
            ==> r == UpdateResponse(p, Get(body, "response"))
    ensures r.Ok? ==> SameIdentity(p, r.value)
    ensures r.Ok? && RowFits(p) ==> RowFits(r.value)
  {
    match UpdateTitle(p, Get(body, "title"))
    case Fail(e) => Fail(e)
    case Ok(p1) =>
      match UpdateText(p1, Get(body, "text"))
      case Fail(e) => Fail(e)
      case Ok(p2) => UpdateResponse(p2, Get(body, "response"))
  }

  /** update_prompt's refusals before it reads the body: the access checks,
      then 400 for a missing body. None means the fields are applied. */
  function UpdateRefusal(rows: map<string, Prompt>, id: string, header: Option<string>, body: Option<Dict>): (e: Option<Status>)
    ensures AccessRefusal(rows, id, header).Some? ==> e == AccessRefusal(rows, id, header)
    ensures AccessRefusal(rows, id, header).None? && !HasBody(body) ==> e == Some(BadRequest)
    ensures e.None? <==> AccessRefusal(rows, id, header).None? && HasBody(body)
  {
    if AccessRefusal(rows, id, header).Some? then AccessRefusal(rows, id, header)
    else if !HasBody(body) then Some(BadRequest)
    else None
  }

  /** Lines 125-131 of update_prompt: the title block, changing the loaded
      record in place. changed is the block's update of the flag. */
  method ApplyTitle(p: Prompt, b: Dict) returns (res: Result<Prompt>, changed: bool)
    ensures res == UpdateTitle(p, Get(b, "title"))
    ensures res.Ok? ==> (changed <==> res.value != p)
  {
    changed := false;
    if "title" in b {
      if !b["title"].JStr? {
        return Fail(InternalError), changed;
      }
      var newTitle := Strip(b["title"].s);
      assert NextTrimmed(p.title, Get(b, "title")) == if newTitle != "" && newTitle != p.title then Ok(newTitle) else Ok(p.title);
      if newTitle != "" && newTitle != p.title {
        if |newTitle| > MaxTitleLength {
          return Fail(BadRequest), changed;
        }
        return Ok(p.(title := newTitle)), true;
      }
    }
    assert UpdateTitle(p, Get(b, "title")) == Ok(p);
    res := Ok(p);
  }

  /** Lines 133-137 of update_prompt: the text block. */
  method ApplyText(p: Prompt, b: Dict) returns (res: Result<Prompt>, changed: bool)
    ensures res == UpdateText(p, Get(b, "text"))
    ensures res.Ok? ==> (changed <==> res.value != p)
  {
    changed := false;
    if "text" in b {
      if !b["text"].JStr? {
        return Fail(InternalError), changed;
      }
      var newText := Strip(b["text"].s);
      assert NextTrimmed(p.text, Get(b, "text")) == if newText != "" && newText != p.text then Ok(newText) else Ok(p.text);
      if newText != "" && newText != p.text {
        return Ok(p.(text := newText)), true;
      }
    }
    assert UpdateText(p, Get(b, "text")) == Ok(p);
    res := Ok(p);
  }

  /** Lines 139-153 of update_prompt: the response block. */
  method ApplyResponse(p: Prompt, b: Dict) returns (res: Result<Prompt>, changed: bool)
    ensures res == UpdateResponse(p, Get(b, "response"))
    ensures res.Ok? ==> (changed <==> res.value != p)
  {
    changed := false;
    if "response" in b {
      var given := b["response"];
      assert Get(b, "response") == Some(given);
      if given.JNull? || given.JStr? {
        var processed := if given.JStr? then Some(Strip(given.s)) else None;
        if processed.Some? && |processed.value| > MaxResponseLength {
          return Fail(BadRequest), changed;
        }
        if processed != p.response {
          return Ok(p.(response := processed)), true;
        }
        assert p.(response := processed) == p;
      } else {
        return Fail(BadRequest), changed;
      }
    }
    res := Ok(p);
  }

  /** Lines 123-155 of update_prompt: the three field blocks in order, each
      on the record the previous one left, with the updated flag. */
  method ApplyBody(p0: Prompt, b: Dict) returns (res: Result<Prompt>, updated: bool)
    ensures res == ApplyUpdate(p0, b)
    ensures res.Ok? ==> (updated <==> res.value != p0)
  {
    var r1, c1 := ApplyTitle(p0, b);
    if r1.Fail? {
      return r1, false;
    }
    var r2, c2 := ApplyText(r1.value, b);
    if r2.Fail? {
      return r2, c1;
    }
    var r3, c3 := ApplyResponse(r2.value, b);
    if r3.Fail? {
      return r3, c1 || c2;
    }
    res := r3;
    updated := c1 || c2 || c3;
  }

  /** PUT /prompts/<id>: 404, then 403 for a read-only row, then 403 for a
      missing or wrong code, then 400 for a missing body; then the field
      rules, committed once at the end when something changed. */
  method UpdatePrompt(db: PromptTable, id: string, header: Option<string>, body: Option<Dict>) returns (r: Reply)
    requires db.Valid()
    modifies db
    ensures db.Valid()
    ensures UpdateRefusal(old(db.rows), id, header, body).Some? ==>
              r == Err(UpdateRefusal(old(db.rows), id, header, body).value)
    ensures UpdateRefusal(old(db.rows), id, header, body).None? ==>
              var u := ApplyUpdate(old(db.rows)[id], body.value);
              && (u.Fail? ==> r == Err(u.status))
              && (u.Ok? ==> r == OkItem(ToDict(u.value)) && db.rows == old(db.rows)[id := u.value])
    ensures !r.OkItem? ==> db.rows == old(db.rows)
  {
    if id !in db.rows {
      return Err(NotFound);
    }
    var p := db.rows[id];
    if p.readOnly {
      return Err(Forbidden);
    }
    if !Authorized(header, p.modificationCode) {
      return Err(Forbidden);
    }
    if body.None? || body.value == map[] {
      return Err(BadRequest);
    }
    var res, updated := ApplyBody(p, body.value);
    if res.Fail? {
      return Err(res.status);
    }
    if updated {
      ReplaceRowKeepsConstraints(db.rows, res.value);
      var _ := db.CommitChanges(db.rows[id := res.value]);
    }
    r := OkItem(ToDict(res.value));
  }

  /** Replacing a row by one with the same key and code that fits its
      columns keeps the table constraints. */
  lemma ReplaceRowKeepsConstraints(rows: map<string, Prompt>, p: Prompt)
    requires TableConstraints(rows) && p.id in rows && RowFits(p)
    requires p.modificationCode == rows[p.id].modificationCode
    ensures TableConstraints(rows[p.id := p])
  {
  }

  // ---------------------------------------------------------------------
  // DELETE /prompts/<id>
  // ---------------------------------------------------------------------

  /** DELETE /prompts/<id>: the same 404 and 403 checks as update, then the
      row and only that row is removed. */
  method DeletePrompt(db: PromptTable, id: string, header: Option<string>) returns (r: Reply)
    requires db.Valid()
    modifies db
    ensures db.Valid()
    ensures AccessRefusal(old(db.rows), id, header).Some? ==>
              r == Err(AccessRefusal(old(db.rows), id, header).value) && db.rows == old(db.rows)
    ensures AccessRefusal(old(db.rows), id, header).None? ==> r == NoContent && db.rows == old(db.rows) - {id}
  {
    if id !in db.rows {
      return Err(NotFound);
    }
    var p := db.rows[id];
    if p.readOnly {
      return Err(Forbidden);
    }
    if !Authorized(header, p.modificationCode) {
      return Err(Forbidden);
    }
    var _ := db.CommitChanges(db.rows - {id});
    r := NoContent;
  }
}
