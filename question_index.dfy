/** The question table as the theme matcher sees it, and the index it builds over the questions
    that have no theme yet: normalised question text to the ids of the questions with that text. */
module QuestionIndex {
  import opened Wrappers

  /** One row of the `Questions` table, reduced to what the matcher reads and writes. */
  datatype Row = Row(text: string, themeId: Option<int>)

  /** The projection `new { q.Id, q.Text }` of an unthemed question. */
  datatype QuestionRef = QuestionRef(id: int, text: string)

  /** `rows` after `Where(q => ids.Contains(q.Id) && q.ThemeId == null)
      .ExecuteUpdateAsync(s => s.SetProperty(q => q.ThemeId, themeId))`. */
  function Assigned(rows: map<int, Row>, ids: set<int>, themeId: int): (r: map<int, Row>)
    ensures r.Keys == rows.Keys
  {
    map id | id in rows :: if id in ids && rows[id].themeId.None? then Row(rows[id].text, Some(themeId)) else rows[id]
  }

  /** The bulk update fills in exactly the listed rows whose theme is null: every row keeps its
      text, a row that already has a theme keeps it, and so does a row that is not listed. */
  lemma AssignedOnlyFillsNull(rows: map<int, Row>, ids: set<int>, themeId: int, id: int)
    requires id in rows
    ensures var r := Assigned(rows, ids, themeId);
            && id in r && r[id].text == rows[id].text
            && (r[id].themeId != rows[id].themeId <==> id in ids && rows[id].themeId.None?)
            && (r[id].themeId != rows[id].themeId ==> r[id].themeId == Some(themeId))
  {
  }

  /** `qs` lists every row without a theme exactly once, with its text, and nothing else. */
  ghost predicate Listing(rows: map<int, Row>, qs: seq<QuestionRef>) {
    && (forall i, j :: 0 <= i < j < |qs| ==> qs[i].id != qs[j].id)
    && (forall i :: 0 <= i < |qs| ==> qs[i].id in rows && rows[qs[i].id] == Row(qs[i].text, None))
    && (forall id :: id in rows && rows[id].themeId.None? ==> QuestionRef(id, rows[id].text) in qs)
  }

  /** The `Questions` table, keyed by id. */
  class QuestionStore {
    var rows: map<int, Row>

    constructor (rows: map<int, Row>)
      ensures this.rows == rows
    {
      this.rows := rows;
    }

    /** `Questions.Where(q => q.ThemeId == null).Select(q => new { q.Id, q.Text })`. The query
        fixes no order, so the rows are taken in whatever order the loop picks them. */
    method Unthemed() returns (qs: seq<QuestionRef>)
      ensures Listing(rows, qs)
    {
      qs := [];
      var left, done := rows.Keys, {};
      while left != {}
        invariant left + done == rows.Keys && left !! done
        invariant forall i, j :: 0 <= i < j < |qs| ==> qs[i].id != qs[j].id
        invariant forall i :: 0 <= i < |qs| ==> qs[i].id in done && rows[qs[i].id] == Row(qs[i].text, None)
        invariant forall id :: id in done && rows[id].themeId.None? ==> QuestionRef(id, rows[id].text) in qs
        decreases left
      {
        var id := Pick(left);
        if rows[id].themeId.None? {
          qs := qs + [QuestionRef(id, rows[id].text)];
        }
        left, done := left - {id}, done + {id};
      }
    }

    /** The conditional bulk update: theme `themeId` for the listed rows that have none. */
    method AssignTheme(ids: set<int>, themeId: int)
      modifies this
      ensures rows == Assigned(old(rows), ids, themeId)
    {
      rows := Assigned(rows, ids, themeId);
    }
  }

  /** Some element of a non-empty set. */
  method Pick(s: set<int>) returns (x: int)
    requires s != {}
    ensures x in s
  {
    if forall y :: y !in s {
      assert false;
    }
    x :| x in s;
  }

  // ---- the index ----

  /** `questionMap` after the `foreach` over the loaded questions: each question's id appended
      to the list under its key, lists created on first use. */
  function Index(qs: seq<QuestionRef>, keyOf: string -> string): map<string, seq<int>> {
    if qs == [] then map[]
    else
      var m := Index(qs[..|qs| - 1], keyOf);
      var q := qs[|qs| - 1];
      var key := keyOf(q.text);
      m[key := (if key in m then m[key] else []) + [q.id]]
  }

  /** The ids of the questions whose key is `key`, in load order. */
  function IdsUnder(qs: seq<QuestionRef>, keyOf: string -> string, key: string): (r: seq<int>)
    ensures |r| <= |qs|
  {
    if qs == [] then []
    else
      var q := qs[|qs| - 1];
      IdsUnder(qs[..|qs| - 1], keyOf, key) + (if keyOf(q.text) == key then [q.id] else [])
  }

  /** Building the index in place. */
  method BuildIndex(qs: seq<QuestionRef>, keyOf: string -> string) returns (questionMap: map<string, seq<int>>)
    ensures questionMap == Index(qs, keyOf)
  {
    questionMap := map[];
    for i := 0 to |qs|
      invariant questionMap == Index(qs[..i], keyOf)
    {
      assert qs[..i + 1][..i] == qs[..i];
      var key := keyOf(qs[i].text);
      if key !in questionMap {
        questionMap := questionMap[key := []];
      }
      questionMap := questionMap[key := questionMap[key] + [qs[i].id]];
    }
    assert qs[..|qs|] == qs;
  }

  /** The index groups the questions by key: a key is present exactly when some question has
      it, and its list holds the ids of those questions in load order. */
  lemma {:induction false} IndexIsGrouping(qs: seq<QuestionRef>, keyOf: string -> string)
    ensures forall key :: key in Index(qs, keyOf) <==> IdsUnder(qs, keyOf, key) != []
    ensures forall key :: key in Index(qs, keyOf) ==> Index(qs, keyOf)[key] == IdsUnder(qs, keyOf, key)
  {
    if qs != [] {
      IndexIsGrouping(qs[..|qs| - 1], keyOf);
    }
  }

  /** An id is listed under `key` exactly when some loaded question has that id and that key. */
  lemma {:induction false} IdsUnderMembers(qs: seq<QuestionRef>, keyOf: string -> string, key: string)
    ensures forall id :: id in IdsUnder(qs, keyOf, key) <==>
              exists i :: 0 <= i < |qs| && qs[i].id == id && keyOf(qs[i].text) == key
  {
    if qs != [] {
      var n := |qs| - 1;
      IdsUnderMembers(qs[..n], keyOf, key);
      assert forall i :: 0 <= i < n ==> qs[..n][i] == qs[i];
    }
  }

  /** With distinct ids, each question's id occurs exactly once in the list under its own key. */
  lemma {:induction false} IdsUnderOnce(qs: seq<QuestionRef>, keyOf: string -> string, i: nat)
    requires forall a, b :: 0 <= a < b < |qs| ==> qs[a].id != qs[b].id
    requires i < |qs|
    ensures multiset(IdsUnder(qs, keyOf, keyOf(qs[i].text)))[qs[i].id] == 1
  {
    var n := |qs| - 1;
    var key := keyOf(qs[i].text);
    if i == n {
      IdsUnderMembers(qs[..n], keyOf, key);
      assert qs[i].id !in IdsUnder(qs[..n], keyOf, key);
    } else {
      IdsUnderOnce(qs[..n], keyOf, i);
      assert qs[..n][i] == qs[i];
    }
  }

  /** An id occurs under no key other than its question's own. */
  lemma IdsUnderOwnKeyOnly(qs: seq<QuestionRef>, keyOf: string -> string, i: nat, key: string)
    requires forall a, b :: 0 <= a < b < |qs| ==> qs[a].id != qs[b].id
    requires i < |qs| && key != keyOf(qs[i].text)
    ensures qs[i].id !in IdsUnder(qs, keyOf, key)
  {
    IdsUnderMembers(qs, keyOf, key);
  }

  // ---- the same index, independent of load order ----

  /** The unthemed rows whose text has key `key`. */
  ghost function Claimants(rows: map<int, Row>, keyOf: string -> string, key: string): set<int> {
    set id | id in rows && rows[id].themeId.None? && keyOf(rows[id].text) == key
  }

  /** The index as sets: every key of an unthemed row, mapped to the rows with that key. */
  ghost function KeyIndex(rows: map<int, Row>, keyOf: string -> string): map<string, set<int>> {
    var keys := set id | id in rows && rows[id].themeId.None? :: keyOf(rows[id].text);
    map key | key in keys :: Claimants(rows, keyOf, key)
  }

  /** Whatever order the unthemed rows are loaded in, the index has the keys of `KeyIndex` and
      each of its lists holds the ids of the set under that key. */
  lemma IndexAgrees(rows: map<int, Row>, qs: seq<QuestionRef>, keyOf: string -> string)
    requires Listing(rows, qs)
    ensures Index(qs, keyOf).Keys == KeyIndex(rows, keyOf).Keys
    ensures forall key :: key in Index(qs, keyOf) ==>
              (set id | id in Index(qs, keyOf)[key]) == KeyIndex(rows, keyOf)[key]
  {
    IndexIsGrouping(qs, keyOf);
    forall key
      ensures key in Index(qs, keyOf) <==> key in KeyIndex(rows, keyOf)
      ensures key in Index(qs, keyOf) ==> (set id | id in Index(qs, keyOf)[key]) == KeyIndex(rows, keyOf)[key]
    {
      IdsUnderAreClaimants(rows, qs, keyOf, key);
    }
  }

  /** The ids under a key in load order are exactly the unthemed rows with that key. */
  lemma IdsUnderAreClaimants(rows: map<int, Row>, qs: seq<QuestionRef>, keyOf: string -> string, key: string)
    requires Listing(rows, qs)
    ensures (set id | id in IdsUnder(qs, keyOf, key)) == Claimants(rows, keyOf, key)
    ensures IdsUnder(qs, keyOf, key) != [] <==> key in KeyIndex(rows, keyOf)
  {
    IdsUnderMembers(qs, keyOf, key);
    var c := Claimants(rows, keyOf, key);
    forall id | id in c
      ensures id in IdsUnder(qs, keyOf, key)
    {
      var i :| 0 <= i < |qs| && qs[i] == QuestionRef(id, rows[id].text);
    }
    forall id | id in IdsUnder(qs, keyOf, key)
      ensures id in c
    {
      var i :| 0 <= i < |qs| && qs[i].id == id && keyOf(qs[i].text) == key;
    }
    if IdsUnder(qs, keyOf, key) != [] {
      var id := IdsUnder(qs, keyOf, key)[0];
      assert id in c;
      assert key == keyOf(rows[id].text);
    }
    if key in KeyIndex(rows, keyOf) {
      var id :| id in rows && rows[id].themeId.None? && keyOf(rows[id].text) == key;
      assert id in c;
    }
  }
}
