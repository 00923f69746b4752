/** The prompts table: the Prompt record, its column constraints, the read
    projection to_dict, and the table itself as an object whose rows the
    handlers change. */
module Models {
  import opened Api

  const MaxTitleLength := 150
  const MaxUsernameLength := 80
  const MaxCodeLength := 8
  const MaxIdLength := 36

  /** One row of the prompts table. createdAt is an opaque timestamp and is
      nullable like its column; username and response are nullable. */
  datatype Prompt = Prompt(
    id: string,
    title: string,
    text: string,
    username: Option<string>,
    response: Option<string>,
    modificationCode: string,
    createdAt: Option<nat>,
    readOnly: bool)

  /** The column types: String(36) id, String(150) title, String(80)
      username, String(8) code; the NOT NULL columns are never null here. */
  predicate RowFits(p: Prompt) {
    && |p.id| <= MaxIdLength
    && |p.title| <= MaxTitleLength
    && (p.username.Some? ==> |p.username.value| <= MaxUsernameLength)
    && |p.modificationCode| <= MaxCodeLength
  }

  /** The modification codes held by stored rows. */
  function Codes(rows: map<string, Prompt>): (cs: set<string>)
    ensures forall k :: k in rows ==> rows[k].modificationCode in cs
    ensures forall c :: c in cs ==> exists k :: k in rows && rows[k].modificationCode == c
  {
    set k | k in rows :: rows[k].modificationCode
  }

  /** The UNIQUE constraint on modification_code. */
  predicate CodesUnique(rows: map<string, Prompt>) {
    forall a, b :: a in rows && b in rows && a != b ==> rows[a].modificationCode != rows[b].modificationCode
  }

  /** There are never more codes than rows, and as many exactly when the
      codes are unique: each row then holds a code of its own. */
  lemma {:induction false} CodeCount(rows: map<string, Prompt>)
    ensures |Codes(rows)| <= |rows|
    ensures CodesUnique(rows) <==> |Codes(rows)| == |rows|
    decreases |rows|
  {
    if rows != map[] {
      var k :| k in rows;
      var rest := rows - {k};
      assert rest.Keys == rows.Keys - {k};
      CodeCount(rest);
      CodesWithout(rows, k);
      var c := rows[k].modificationCode;
      if c in Codes(rest) {
        var j :| j in rest && rest[j].modificationCode == c;
        assert j in rows && j != k && rows[j].modificationCode == rows[k].modificationCode;
      } else {
        UniqueWithout(rows, k);
      }
    }
  }

  /** Taking one row out leaves the codes of the others. */
  lemma CodesWithout(rows: map<string, Prompt>, k: string)
    requires k in rows
    ensures Codes(rows) == Codes(rows - {k}) + {rows[k].modificationCode}
  {
    var rest := rows - {k};
    forall x | x in Codes(rows) ensures x in Codes(rest) + {rows[k].modificationCode} {
      var j :| j in rows && rows[j].modificationCode == x;
      if j != k { assert j in rest; }
    }
  }

  /** A row whose code no other row holds does not decide uniqueness. */
  lemma UniqueWithout(rows: map<string, Prompt>, k: string)
    requires k in rows && rows[k].modificationCode !in Codes(rows - {k})
    ensures CodesUnique(rows) <==> CodesUnique(rows - {k})
  {
    var rest := rows - {k};
    if CodesUnique(rest) {
      forall a, b | a in rows && b in rows && a != b
        ensures rows[a].modificationCode != rows[b].modificationCode
      {
        if a == k { assert b in rest; }
        else if b == k { assert a in rest; }
        else { assert a in rest && b in rest; }
      }
    }
  }

  /** Everything the database enforces on the table: rows are keyed by
      their primary key, fit their columns, and codes are unique. */
  predicate TableConstraints(rows: map<string, Prompt>) {
    && (forall k :: k in rows ==> rows[k].id == k && RowFits(rows[k]))
    && CodesUnique(rows)
  }

  const ReadKeys: set<string> := {"id", "title", "text", "username", "response", "created_at", "read_only"}

  function OptionalString(o: Option<string>): Json {
    match o
    case Some(s) => JStr(s)
    case None => JNull
  }

  /** to_dict(): every column except modification_code; created_at in ISO
      form, or null when absent. */
  function ToDict(p: Prompt): (d: Dict)
    ensures d.Keys == ReadKeys
    ensures "modification_code" !in d
    ensures d["created_at"] == if p.createdAt.Some? then JTime(p.createdAt.value) else JNull
  {
    map[
      "id" := JStr(p.id),
      "title" := JStr(p.title),
      "text" := JStr(p.text),
      "username" := OptionalString(p.username),
      "response" := OptionalString(p.response),
      "created_at" := (match p.createdAt case Some(t) => JTime(t) case None => JNull),
      "read_only" := JBool(p.readOnly)]
  }

  /** to_dict() loses the modification code and nothing else: two rows have
      the same projection exactly when they differ at most in their code. */
  lemma ToDictForgetsOnlyCode(p: Prompt, q: Prompt)
    ensures ToDict(p) == ToDict(q) <==> p.(modificationCode := q.modificationCode) == q
  {
    if ToDict(p) == ToDict(q) {
      assert ToDict(p)["id"] == ToDict(q)["id"];
      assert ToDict(p)["title"] == ToDict(q)["title"];
      assert ToDict(p)["text"] == ToDict(q)["text"];
      assert ToDict(p)["username"] == ToDict(q)["username"];
      assert ToDict(p)["response"] == ToDict(q)["response"];
      assert ToDict(p)["created_at"] == ToDict(q)["created_at"];
      assert ToDict(p)["read_only"] == ToDict(q)["read_only"];
    }
  }

  /** The rows news appended to rows, in order. */
  function AddRows(rows: map<string, Prompt>, news: seq<Prompt>): map<string, Prompt>
    decreases |news|
  {
    if news == [] then rows else AddRows(rows[news[0].id := news[0]], news[1..])
  }

  /** The new rows' primary keys are distinct and not yet taken. */
  predicate Insertable(rows: map<string, Prompt>, news: seq<Prompt>) {
    && (forall i :: 0 <= i < |news| ==> news[i].id !in rows)
    && (forall i, j :: 0 <= i < j < |news| ==> news[i].id != news[j].id)
  }

  /** Inserting keeps every old row, adds each new row under its own key,
      and grows the table by exactly |news| rows. */
  lemma {:induction false} AddRowsContents(rows: map<string, Prompt>, news: seq<Prompt>)
    requires Insertable(rows, news)
    ensures forall k :: k in rows ==> k in AddRows(rows, news) && AddRows(rows, news)[k] == rows[k]
    ensures forall i :: 0 <= i < |news| ==> news[i].id in AddRows(rows, news) && AddRows(rows, news)[news[i].id] == news[i]
    ensures forall k :: k in AddRows(rows, news) ==> k in rows || exists i :: 0 <= i < |news| && news[i].id == k
    ensures |AddRows(rows, news)| == |rows| + |news|
    decreases |news|
  {
    if news != [] {
      var rows' := rows[news[0].id := news[0]];
      assert Insertable(rows', news[1..]) by {
        forall i | 0 <= i < |news[1..]| ensures news[1..][i].id !in rows' {
          assert news[1..][i] == news[i + 1];
        }
      }
      AddRowsContents(rows', news[1..]);
      var r := AddRows(rows, news);
      forall i | 0 <= i < |news| ensures news[i].id in r && r[news[i].id] == news[i] {
        if i > 0 { assert news[i] == news[1..][i - 1]; }
      }
      forall k | k in r ensures k in rows || exists i :: 0 <= i < |news| && news[i].id == k {
        if k !in rows' {
          var i :| 0 <= i < |news[1..]| && news[1..][i].id == k;
          assert news[i + 1].id == k;
        }
      }
    }
  }

  /** The prompts table. Its rows always satisfy the table constraints;
      a write that would break them is refused by the database and rolled
      back, leaving the rows as they were. */
  class PromptTable {
    var rows: map<string, Prompt>

    ghost predicate Valid()
      reads this
    {
      TableConstraints(rows)
    }

    constructor ()
      ensures Valid() && rows == map[]
    {
      rows := map[];
    }

    /** COMMIT of updates and deletes: accepted exactly when the resulting
        rows meet the constraints. */
    method CommitChanges(next: map<string, Prompt>) returns (ok: bool)
      requires Valid()
      modifies this
      ensures Valid()
      ensures ok == TableConstraints(next)
      ensures rows == if ok then next else old(rows)
    {
      ok := TableConstraints(next);
      if ok {
        rows := next;
      }
    }

    /** COMMIT of INSERTs: accepted exactly when the primary keys are new
        and the resulting rows meet the constraints. */
    method CommitInserts(news: seq<Prompt>) returns (ok: bool)
      requires Valid()
      modifies this
      ensures Valid()
      ensures ok == (Insertable(old(rows), news) && TableConstraints(AddRows(old(rows), news)))
      ensures rows == if ok then AddRows(old(rows), news) else old(rows)
    {
      ok := Insertable(rows, news) && TableConstraints(AddRows(rows, news));
      if ok {
        rows := AddRows(rows, news);
      }
    }
  }
}
