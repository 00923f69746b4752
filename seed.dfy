/** seed_database: insert the read-only core prompts of a seed list,
    skipping every title a read-only prompt already has and every title
    repeated earlier in the list, in one transaction. */
module Seed {
  import opened Api
  import opened Uuid4
  import opened Models
  import opened Utils

  /** One object of the seed list: title and text, and an optional
      username. */
  datatype SeedEntry = SeedEntry(title: string, text: string, username: Option<string>)

  /** How a run ends. OutOfDraws stands for the code generator still
      drawing when the supplied UUIDs ran out. */
  datatype SeedOutcome = Seeded(count: nat) | NothingToSeed | RolledBack | OutOfDraws

  /** existing_titles at the start of a run: the titles of the stored
      read-only prompts. */
  function ReadOnlyTitles(rows: map<string, Prompt>): (ts: set<string>)
    ensures forall k :: k in rows && rows[k].readOnly ==> rows[k].title in ts
    ensures forall t :: t in ts ==> exists k :: k in rows && rows[k].readOnly && rows[k].title == t
  {
    set k | k in rows && rows[k].readOnly :: rows[k].title
  }

  function TitlesOf(s: seq<SeedEntry>): set<string> {
    set i | 0 <= i < |s| :: s[i].title
  }

  /** The entries a run inserts, in list order: an entry goes in when its
      title is neither among the titles given nor earlier in the list. */
  function SeedPlan(existing: set<string>, entries: seq<SeedEntry>): seq<SeedEntry>
    decreases |entries|
  {
    if entries == [] then []
    else
      var front := entries[..|entries| - 1];
      var last := entries[|entries| - 1];
      SeedPlan(existing, front) + (if last.title in existing + TitlesOf(front) then [] else [last])
  }

  /** entries[i] is the first entry of the list with its title. */
  predicate FirstWithTitle(entries: seq<SeedEntry>, i: int) {
    0 <= i < |entries| && forall j :: 0 <= j < i ==> entries[j].title != entries[i].title
  }

  /** Appending one entry adds its title. */
  lemma TitlesOfSnoc(s: seq<SeedEntry>, x: SeedEntry)
    ensures TitlesOf(s + [x]) == TitlesOf(s) + {x.title}
  {
    var t := s + [x];
    forall u | u in TitlesOf(t) ensures u in TitlesOf(s) + {x.title} {
      var i :| 0 <= i < |t| && t[i].title == u;
      if i < |s| { assert t[i] == s[i]; }
    }
    forall u | u in TitlesOf(s) ensures u in TitlesOf(t) {
      var i :| 0 <= i < |s| && s[i].title == u;
      assert t[i] == s[i];
    }
    assert t[|s|] == x;
  }

  /** The plan holds exactly the titles of the list that are not given,
      and is no longer than the list. */
  lemma {:induction false} SeedPlanTitles(existing: set<string>, entries: seq<SeedEntry>)
    ensures |SeedPlan(existing, entries)| <= |entries|
    ensures TitlesOf(SeedPlan(existing, entries)) == TitlesOf(entries) - existing
    decreases |entries|
  {
    if entries != [] {
      var front := entries[..|entries| - 1];
      var last := entries[|entries| - 1];
      SeedPlanTitles(existing, front);
      assert entries == front + [last];
      TitlesOfSnoc(front, last);
      var p0 := SeedPlan(existing, front);
      if last.title !in existing + TitlesOf(front) {
        assert SeedPlan(existing, entries) == p0 + [last];
        TitlesOfSnoc(p0, last);
      } else {
        assert SeedPlan(existing, entries) == p0;
      }
    }
  }

  /** No planned title is given already, and no title is planned twice. */
  lemma {:induction false} SeedPlanDistinct(existing: set<string>, entries: seq<SeedEntry>)
    ensures var plan := SeedPlan(existing, entries);
            && (forall k :: 0 <= k < |plan| ==> plan[k].title !in existing)
            && (forall k, l :: 0 <= k < l < |plan| ==> plan[k].title != plan[l].title)
    decreases |entries|
  {
    if entries != [] {
      var front := entries[..|entries| - 1];
      var last := entries[|entries| - 1];
      SeedPlanDistinct(existing, front);
      SeedPlanTitles(existing, front);
      var p0 := SeedPlan(existing, front);
      if last.title !in existing + TitlesOf(front) {
        forall k | 0 <= k < |p0| ensures p0[k].title != last.title {
          assert p0[k].title in TitlesOf(p0);
        }
      }
    }
  }

  /** Appending to the list keeps the first entries of each title first,
      and the appended entry is first when its title is new. */
  lemma FirstWithTitleSnoc(s: seq<SeedEntry>, x: SeedEntry)
    ensures forall i :: FirstWithTitle(s, i) ==> FirstWithTitle(s + [x], i) && (s + [x])[i] == s[i]
    ensures x.title !in TitlesOf(s) ==> FirstWithTitle(s + [x], |s|)
  {
    var t := s + [x];
    forall i | FirstWithTitle(s, i) ensures FirstWithTitle(t, i) && t[i] == s[i] {
      assert forall j :: 0 <= j < i ==> t[j] == s[j];
    }
    if x.title !in TitlesOf(s) {
      forall j | 0 <= j < |s| ensures t[j].title != x.title {
        assert t[j] == s[j];
        assert s[j].title in TitlesOf(s);
      }
    }
  }

  /** Every planned entry is the first entry of the list with its title. */
  lemma {:induction false} SeedPlanFirst(existing: set<string>, entries: seq<SeedEntry>)
    ensures forall k :: 0 <= k < |SeedPlan(existing, entries)| ==>
              exists i :: FirstWithTitle(entries, i) && entries[i] == SeedPlan(existing, entries)[k]
    decreases |entries|
  {
    if entries != [] {
      var front := entries[..|entries| - 1];
      var last := entries[|entries| - 1];
      assert entries == front + [last];
      SeedPlanFirst(existing, front);
      FirstWithTitleSnoc(front, last);
      var p0 := SeedPlan(existing, front);
      var plan := SeedPlan(existing, entries);
      if last.title !in existing + TitlesOf(front) {
        assert plan == p0 + [last];
        assert plan[|p0|] == entries[|front|];
      } else {
        assert plan == p0;
      }
      forall k | 0 <= k < |plan| ensures exists i :: FirstWithTitle(entries, i) && entries[i] == plan[k] {
        if k < |p0| {
          assert plan[k] == p0[k];
          var i :| FirstWithTitle(front, i) && front[i] == p0[k];
          assert FirstWithTitle(entries, i) && entries[i] == plan[k];
        } else {
          assert FirstWithTitle(entries, |front|) && entries[|front|] == plan[k];
        }
      }
    } else {
      assert SeedPlan(existing, entries) == [];
    }
  }

  /** A run plans nothing exactly when every title of the list is already
      held; in particular a run over titles it has itself seeded is empty. */
  lemma SeedPlanEmpty(existing: set<string>, entries: seq<SeedEntry>)
    ensures SeedPlan(existing, entries) == [] <==> TitlesOf(entries) <= existing
  {
    SeedPlanTitles(existing, entries);
    var plan := SeedPlan(existing, entries);
    if plan != [] {
      assert plan[0].title in TitlesOf(plan);
    }
  }

  /** The row a seed entry becomes. */
  predicate FromEntry(p: Prompt, e: SeedEntry, now: nat) {
    && p.title == e.title && p.text == e.text && p.username == e.username
    && p.response.None? && p.createdAt == Some(now) && p.readOnly
  }

  /** staged[k] is the row for plan[k], under key ids[k], with a code not
      in taken. */
  predicate StagedRows(staged: seq<Prompt>, plan: seq<SeedEntry>, ids: seq<string>, taken: set<string>, now: nat) {
    && |staged| == |plan| <= |ids|
    && forall k :: 0 <= k < |staged| ==>
         FromEntry(staged[k], plan[k], now) && staged[k].id == ids[k] && staged[k].modificationCode !in taken
  }

  lemma StagedRowsSnoc(staged: seq<Prompt>, plan: seq<SeedEntry>, ids: seq<string>, taken: set<string>, now: nat,
                       e: SeedEntry, p: Prompt)
    requires StagedRows(staged, plan, ids, taken, now) && |staged| < |ids|
    requires FromEntry(p, e, now) && p.id == ids[|staged|] && p.modificationCode !in taken
    ensures StagedRows(staged + [p], plan + [e], ids, taken, now)
  {
    var s := staged + [p];
    var q := plan + [e];
    forall k | 0 <= k < |s| ensures FromEntry(s[k], q[k], now) && s[k].id == ids[k] && s[k].modificationCode !in taken {
      if k < |staged| {
        assert s[k] == staged[k] && q[k] == plan[k];
      }
    }
  }

  /** How far into the draws the generator is after producing n codes,
      each call starting where the previous one stopped; all of them once
      they run out. */
  function DrawsUsed(draws: seq<Uuid>, taken: set<string>, n: nat): (d: nat)
    ensures d <= |draws|
  {
    if n == 0 then 0
    else
      var j := NextFree(draws, taken, DrawsUsed(draws, taken, n - 1));
      if j == |draws| then |draws| else j + 1
  }

  /** One more code moves the position to just past the next free draw,
      unless none is left. */
  lemma DrawsUsedNext(draws: seq<Uuid>, taken: set<string>, n: nat)
    ensures var j := NextFree(draws, taken, DrawsUsed(draws, taken, n));
            DrawsUsed(draws, taken, n + 1) == if j == |draws| then |draws| else j + 1
  {
  }

  /** At least n draws, none of which gives a code already stored. */
  predicate FreeDraws(draws: seq<Uuid>, n: nat, taken: set<string>) {
    |draws| >= n && forall i :: 0 <= i < |draws| ==> CodeOf(draws[i]) !in taken
  }

  /** While every draw is free, each code takes exactly one draw. */
  lemma {:induction false} DrawsUsedFree(draws: seq<Uuid>, taken: set<string>, m: nat, n: nat)
    requires n <= m
    ensures FreeDraws(draws, m, taken) ==> DrawsUsed(draws, taken, n) == n
  {
    if n > 0 && FreeDraws(draws, m, taken) {
      DrawsUsedFree(draws, taken, m, n - 1);
      NextFreeIs(draws, taken, n - 1, n - 1);
    }
  }

  /** Running out after fewer than m codes means the draws were not m free
      ones. */
  lemma NoFreeDrawLeft(draws: seq<Uuid>, taken: set<string>, m: nat, n: nat)
    requires n < m
    requires forall j :: DrawsUsed(draws, taken, n) <= j < |draws| ==> CodeOf(draws[j]) in taken
    ensures !FreeDraws(draws, m, taken)
  {
    DrawsUsedFree(draws, taken, m, n);
    var d := DrawsUsed(draws, taken, n);
    if d < |draws| {
      assert CodeOf(draws[d]) in taken;
    }
  }

  /** Lines 66-74 of seed_database: the read-only row for one entry, with
      the code the generator draws from position from on, checked against
      the committed rows; next is where the following call starts. None
      when the draws run out before a free code turns up. */
  method NewSeedRow(db: PromptTable, e: SeedEntry, draws: seq<Uuid>, from: nat, id: string, now: nat)
    returns (row: Option<Prompt>, next: nat)
    requires from <= |draws|
    ensures row.Some? ==> FromEntry(row.value, e, now) && row.value.id == id
                          && row.value.modificationCode !in Codes(db.rows)
    ensures row.None? <==> NextFree(draws, Codes(db.rows), from) == |draws|
    ensures row.Some? ==> next == NextFree(draws, Codes(db.rows), from) + 1
                          && row.value.modificationCode == CodeOf(draws[next - 1])
    ensures from < |draws| && CodeOf(draws[from]) !in Codes(db.rows) ==> row.Some? && next == from + 1
  {
    var code;
    code, next := GenerateFrom(db, draws, from);
    if code.None? {
      return None, next;
    }
    row := Some(Prompt(id, e.title, e.text, e.username, None, code.value, Some(now), true));
  }

  /** One planned entry of the loop: draw its code from the draws not used
      yet and append its row to the rows staged so far. */
  method StageNext(db: PromptTable, e: SeedEntry, codeDraws: seq<Uuid>, drawn: nat, ids: seq<string>,
                   staged: seq<Prompt>, ghost plan: seq<SeedEntry>, now: nat)
    returns (next: seq<Prompt>, drawnAfter: nat, ok: bool)
    requires drawn <= |codeDraws| && |staged| < |ids|
    requires StagedRows(staged, plan, ids, Codes(db.rows), now)
    ensures ok ==> StagedRows(next, plan + [e], ids, Codes(db.rows), now)
    ensures !ok <==> NextFree(codeDraws, Codes(db.rows), drawn) == |codeDraws|
    ensures ok ==> drawnAfter == NextFree(codeDraws, Codes(db.rows), drawn) + 1
    ensures drawn < |codeDraws| && CodeOf(codeDraws[drawn]) !in Codes(db.rows) ==> ok && drawnAfter == drawn + 1
    ensures !ok ==> forall j :: drawn <= j < |codeDraws| ==> CodeOf(codeDraws[j]) in Codes(db.rows)
    ensures ok && drawn == DrawsUsed(codeDraws, Codes(db.rows), |staged|) ==>
              drawnAfter == DrawsUsed(codeDraws, Codes(db.rows), |next|)
  {
    var row;
    row, drawnAfter := NewSeedRow(db, e, codeDraws, drawn, ids[|staged|], now);
    if row.None? {
      return staged, drawn, false;
    }
    DrawsUsedNext(codeDraws, Codes(db.rows), |staged|);
    StagedRowsSnoc(staged, plan, ids, Codes(db.rows), now, e, row.value);
    next, ok := staged + [row.value], true;
  }

  /** Lines 61-80 of seed_database: the loop that stages one new row per
      planned entry. codeDraws are the UUIDs the code generator draws, in
      order over the whole loop; ids[k] is the primary key of the k-th
      staged row; now is the commit time. The query inside the generator
      sees only committed rows, so the codes are fresh against the table
      but not against each other. drewAll is false when the draws ran out. */
  method StageSeedRows(db: PromptTable, entries: seq<SeedEntry>, codeDraws: seq<Uuid>, ids: seq<string>, now: nat)
    returns (staged: seq<Prompt>, drewAll: bool)
    requires |ids| >= |entries|
    ensures var plan := SeedPlan(ReadOnlyTitles(db.rows), entries);
            && |staged| <= |plan| && |staged| <= |entries|
            && (drewAll <==> |staged| == |plan|)
            && (forall k :: 0 <= k < |staged| ==> FromEntry(staged[k], plan[k], now))
    ensures forall k :: 0 <= k < |staged| ==> k < |ids| && staged[k].id == ids[k]
    ensures forall k :: 0 <= k < |staged| ==> staged[k].modificationCode !in Codes(db.rows)
    ensures FreeDraws(codeDraws, |entries|, Codes(db.rows)) ==> drewAll
    ensures !drewAll ==> forall j :: DrawsUsed(codeDraws, Codes(db.rows), |staged|) <= j < |codeDraws|
                                     ==> CodeOf(codeDraws[j]) in Codes(db.rows)
  {
    var existingTitles := ReadOnlyTitles(db.rows);
    staged, drewAll := StageEntries(db, existingTitles, entries, codeDraws, ids, now);
  }

  /** The loop of StageSeedRows, given the titles the read-only rows hold
      when it starts; the set grows by each title staged. */
  method StageEntries(db: PromptTable, existing: set<string>, entries: seq<SeedEntry>, codeDraws: seq<Uuid>,
                      ids: seq<string>, now: nat)
    returns (staged: seq<Prompt>, drewAll: bool)
    requires |ids| >= |entries|
    ensures var plan := SeedPlan(existing, entries);
            && |staged| <= |plan| && |staged| <= |entries|
            && (drewAll <==> |staged| == |plan|)
            && (forall k :: 0 <= k < |staged| ==> FromEntry(staged[k], plan[k], now))
    ensures forall k :: 0 <= k < |staged| ==> k < |ids| && staged[k].id == ids[k]
    ensures forall k :: 0 <= k < |staged| ==> staged[k].modificationCode !in Codes(db.rows)
    ensures FreeDraws(codeDraws, |entries|, Codes(db.rows)) ==> drewAll
    ensures !drewAll ==> forall j :: DrawsUsed(codeDraws, Codes(db.rows), |staged|) <= j < |codeDraws|
                                     ==> CodeOf(codeDraws[j]) in Codes(db.rows)
  {
    var existingTitles := existing;
    staged := [];
    ghost var plan: seq<SeedEntry> := [];
    var drawn: nat := 0;
    assert entries[..0] == [];
    for i := 0 to |entries|
      invariant Staging(db.rows, existing, entries, codeDraws, ids, now, i, existingTitles, plan, staged, drawn)
    {
      var titles', staged', drawn', stop;
      ghost var plan';
      titles', plan', staged', drawn', stop :=
        StageStep(db, existing, entries, codeDraws, ids, now, i, existingTitles, plan, staged, drawn);
      if stop {
        NoFreeDrawLeft(codeDraws, Codes(db.rows), |entries|, |staged|);
        StagedOutcome(existing, Codes(db.rows), entries, ids, now, i, staged, false);
        return staged, false;
      }
      existingTitles, plan, staged, drawn := titles', plan', staged', drawn';
    }
    StagedOutcome(existing, Codes(db.rows), entries, ids, now, |entries|, staged, true);
    drewAll := true;
  }

  /** The state of the staging loop before entry i: the titles seen so far,
      the plan of the entries before i, the rows staged for it, and how
      far into the draws the generator's calls so far have gone. */
  ghost predicate Staging(rows: map<string, Prompt>, existing: set<string>, entries: seq<SeedEntry>,
                          codeDraws: seq<Uuid>, ids: seq<string>, now: nat,
                          i: nat, titles: set<string>, plan: seq<SeedEntry>, staged: seq<Prompt>, drawn: nat)
  {
    && i <= |entries| <= |ids|
    && titles == existing + TitlesOf(entries[..i])
    && plan == SeedPlan(existing, entries[..i])
    && StagedRows(staged, plan, ids, Codes(rows), now)
    && drawn <= |codeDraws| && |staged| <= i
    && drawn == DrawsUsed(codeDraws, Codes(rows), |staged|)
  }

  /** One pass of the staging loop over entry i. stop is set when the entry
      is planned but no draw is left that gives a free code; the state is
      then left as it was. */
  method StageStep(db: PromptTable, existing: set<string>, entries: seq<SeedEntry>, codeDraws: seq<Uuid>,
                   ids: seq<string>, now: nat, i: nat,
                   titles: set<string>, ghost plan: seq<SeedEntry>, staged: seq<Prompt>, drawn: nat)
    returns (titles': set<string>, ghost plan': seq<SeedEntry>, staged': seq<Prompt>, drawn': nat, stop: bool)
    requires i < |entries|
    requires Staging(db.rows, existing, entries, codeDraws, ids, now, i, titles, plan, staged, drawn)
    ensures !stop ==> Staging(db.rows, existing, entries, codeDraws, ids, now, i + 1, titles', plan', staged', drawn')
    ensures stop ==> staged' == staged && entries[i].title !in existing + TitlesOf(entries[..i])
    ensures stop ==> forall j :: drawn <= j < |codeDraws| ==> CodeOf(codeDraws[j]) in Codes(db.rows)
  {
    SeedPlanStep(existing, entries, i);
    var e := entries[i];
    titles', plan', staged', drawn', stop := titles, plan, staged, drawn, false;
    if e.title !in titles {
      var next, ok;
      next, drawn', ok := StageNext(db, e, codeDraws, drawn, ids, staged, plan, now);
      if !ok {
        return titles, plan, staged, drawn, true;
      }
      staged' := next;
      plan' := plan + [e];
      titles' := titles + {e.title};
    } else {
      assert titles + {e.title} == titles;
    }
  }

  /** What the staging loop delivers at either of its returns: after the
      whole list, or when the draws run out at entry i, a planned one. */
  lemma StagedOutcome(existing: set<string>, taken: set<string>, entries: seq<SeedEntry>, ids: seq<string>, now: nat,
                      i: nat, staged: seq<Prompt>, drewAll: bool)
    requires i <= |entries|
    requires StagedRows(staged, SeedPlan(existing, entries[..i]), ids, taken, now)
    requires drewAll ==> i == |entries|
    requires !drewAll ==> i < |entries| && entries[i].title !in existing + TitlesOf(entries[..i])
    ensures var plan := SeedPlan(existing, entries);
            && |staged| <= |plan| && |staged| <= |entries|
            && (drewAll <==> |staged| == |plan|)
            && (forall k :: 0 <= k < |staged| ==> FromEntry(staged[k], plan[k], now))
    ensures forall k :: 0 <= k < |staged| ==> k < |ids| && staged[k].id == ids[k]
    ensures forall k :: 0 <= k < |staged| ==> staged[k].modificationCode !in taken
  {
    SeedPlanTitles(existing, entries);
    if drewAll {
      assert entries[..i] == entries;
    } else {
      StagedPrefixOfPlan(existing, entries, i, staged, ids, taken, now);
    }
  }

  /** seed_database: stage the planned rows, then commit them in one
      transaction when there is at least one. A commit the database refuses
      (a taken key, a column too long, two staged rows with the same code)
      is rolled back. */
  method SeedDatabase(db: PromptTable, entries: seq<SeedEntry>, codeDraws: seq<Uuid>, idDraws: seq<Uuid>, now: nat)
    returns (outcome: SeedOutcome, inserted: seq<Prompt>)
    requires db.Valid()
    requires |idDraws| >= |entries|
    modifies db
    ensures db.Valid()
    ensures var plan := SeedPlan(ReadOnlyTitles(old(db.rows)), entries);
            && (outcome == NothingToSeed <==> plan == [])
            && (!outcome.OutOfDraws? ==> |inserted| == |plan|)
            && (outcome.OutOfDraws? <==> |inserted| < |plan|)
            && |inserted| <= |plan|
            && (forall k :: 0 <= k < |inserted| ==> FromEntry(inserted[k], plan[k], now))
    ensures forall k :: 0 <= k < |inserted| ==> k < |idDraws| && inserted[k].id == UuidString(idDraws[k])
    ensures forall k :: 0 <= k < |inserted| ==> inserted[k].modificationCode !in Codes(old(db.rows))
    ensures outcome.Seeded? ==> outcome.count == |inserted| > 0 && db.rows == AddRows(old(db.rows), inserted)
    ensures !outcome.Seeded? ==> db.rows == old(db.rows)
    ensures FreeDraws(codeDraws, |entries|, Codes(old(db.rows))) ==> !outcome.OutOfDraws?
    ensures outcome.OutOfDraws? ==> forall j :: DrawsUsed(codeDraws, Codes(old(db.rows)), |inserted|) <= j < |codeDraws|
                                               ==> CodeOf(codeDraws[j]) in Codes(old(db.rows))
    ensures outcome == RolledBack <==>
              !outcome.OutOfDraws? && inserted != []
              && !(Insertable(old(db.rows), inserted) && TableConstraints(AddRows(old(db.rows), inserted)))
  {
    var drewAll;
    var ids := seq(|idDraws|, k requires 0 <= k < |idDraws| => UuidString(idDraws[k]));
    inserted, drewAll := StageSeedRows(db, entries, codeDraws, ids, now);
    if !drewAll {
      return OutOfDraws, inserted;
    }
    var count := |inserted|;
    if count > 0 {
      var ok := db.CommitInserts(inserted);
      outcome := if ok then Seeded(count) else RolledBack;
    } else {
      outcome := NothingToSeed;
    }
  }

  /** When staging stops at a new title, what was staged is a proper
      prefix of the plan. */
  lemma StagedPrefixOfPlan(existing: set<string>, entries: seq<SeedEntry>, i: nat,
                           staged: seq<Prompt>, ids: seq<string>, taken: set<string>, now: nat)
    requires i < |entries|
    requires entries[i].title !in existing + TitlesOf(entries[..i])
    requires StagedRows(staged, SeedPlan(existing, entries[..i]), ids, taken, now)
    ensures |staged| < |SeedPlan(existing, entries)|
    ensures forall k :: 0 <= k < |staged| ==> FromEntry(staged[k], SeedPlan(existing, entries)[k], now)
  {
    SeedPlanStep(existing, entries, i);
    SeedPlanPrefix(existing, entries, i + 1);
    var longer := SeedPlan(existing, entries[..i + 1]);
    assert forall k :: 0 <= k < |staged| ==> longer[k] == SeedPlan(existing, entries[..i])[k];
  }

  /** The plan of a prefix is a prefix of the plan. */
  lemma {:induction false} SeedPlanPrefix(existing: set<string>, entries: seq<SeedEntry>, i: nat)
    requires i <= |entries|
    ensures |SeedPlan(existing, entries[..i])| <= |SeedPlan(existing, entries)|
    ensures SeedPlan(existing, entries[..i]) == SeedPlan(existing, entries)[..|SeedPlan(existing, entries[..i])|]
    decreases |entries| - i
  {
    if i < |entries| {
      SeedPlanPrefix(existing, entries, i + 1);
      SeedPlanStep(existing, entries, i);
    } else {
      assert entries[..i] == entries;
    }
  }

  /** One step of the loop: the plan of a longer prefix is the plan of the
      shorter one, plus the next entry when its title is new. */
  lemma SeedPlanStep(existing: set<string>, entries: seq<SeedEntry>, i: nat)
    requires i < |entries|
    ensures SeedPlan(existing, entries[..i + 1]) ==
              SeedPlan(existing, entries[..i])
              + (if entries[i].title in existing + TitlesOf(entries[..i]) then [] else [entries[i]])
    ensures existing + TitlesOf(entries[..i + 1]) == existing + TitlesOf(entries[..i]) + {entries[i].title}
  {
    var pre := entries[..i + 1];
    assert pre[..|pre| - 1] == entries[..i];
    assert TitlesOf(pre) == TitlesOf(entries[..i]) + {entries[i].title} by {
      forall t | t in TitlesOf(pre) ensures t in TitlesOf(entries[..i]) + {entries[i].title} {
        var j :| 0 <= j < |pre| && pre[j].title == t;
        if j < i { assert entries[..i][j] == pre[j]; }
      }
      forall t | t in TitlesOf(entries[..i]) ensures t in TitlesOf(pre) {
        var j :| 0 <= j < i && entries[..i][j].title == t;
        assert pre[j] == entries[..i][j];
      }
    }
  }

  /** After a committed run every title of the list is held by a read-only
      prompt, so running again with the same list inserts nothing. */
  lemma SeededCoversList(rows: map<string, Prompt>, entries: seq<SeedEntry>, inserted: seq<Prompt>, now: nat)
    requires Insertable(rows, inserted)
    requires |inserted| == |SeedPlan(ReadOnlyTitles(rows), entries)|
    requires forall k :: 0 <= k < |inserted| ==> FromEntry(inserted[k], SeedPlan(ReadOnlyTitles(rows), entries)[k], now)
    ensures TitlesOf(entries) <= ReadOnlyTitles(AddRows(rows, inserted))
    ensures SeedPlan(ReadOnlyTitles(AddRows(rows, inserted)), entries) == []
  {
    var existing := ReadOnlyTitles(rows);
    var plan := SeedPlan(existing, entries);
    var after := AddRows(rows, inserted);
    SeedPlanTitles(existing, entries);
    AddRowsContents(rows, inserted);
    forall t | t in TitlesOf(entries) ensures t in ReadOnlyTitles(after) {
      if t in existing {
        var k :| k in rows && rows[k].readOnly && rows[k].title == t;
        assert after[k] == rows[k];
      } else {
        assert t in TitlesOf(plan);
        var j :| 0 <= j < |plan| && plan[j].title == t;
        assert FromEntry(inserted[j], plan[j], now);
        assert after[inserted[j].id] == inserted[j];
      }
    }
    SeedPlanEmpty(ReadOnlyTitles(after), entries);
  }

  /** Running the seed twice with the same list: the second run finds
      nothing to seed and leaves the table as the first run left it. */
  method SeedTwice(db: PromptTable, entries: seq<SeedEntry>, codeDraws: seq<Uuid>, idDraws: seq<Uuid>, now: nat)
    returns (first: SeedOutcome, second: SeedOutcome, inserted: seq<Prompt>)
    requires db.Valid()
    requires |idDraws| >= |entries|
    modifies db
    ensures first.Seeded? ==> second == NothingToSeed && db.rows == AddRows(old(db.rows), inserted)
    ensures first == NothingToSeed ==> second == NothingToSeed && db.rows == old(db.rows)
  {
    first, inserted := SeedDatabase(db, entries, codeDraws, idDraws, now);
    if first.Seeded? {
      SeededCoversList(old(db.rows), entries, inserted, now);
    }
    var again;
    second, again := SeedDatabase(db, entries, codeDraws, idDraws, now);
  }
}
