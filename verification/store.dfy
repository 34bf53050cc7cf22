/**
  The table of stored records and the three ways a submit or a delete changes it.
  The central invariant, `IdsAscending`, says every stored row has a positive id and
  the ids strictly increase down the table (so they are also unique); each
  operation here preserves it.
 */
module Store {
  import opened Wrappers
  import opened Records

  /** The number a row's id contributes to `Math.max`; JavaScript reads `null` as 0. */
  function IdNumber(r: Record): int {
    match r.testId
    case Some(k) => k
    case None => 0
  }

  /** Every row has an id of at least 1, and ids strictly increase in table order. */
  ghost predicate IdsAscending(table: seq<Record>) {
    && (forall i :: 0 <= i < |table| ==> table[i].testId.Some? && table[i].testId.value >= 1)
    && (forall i, j :: 0 <= i < j < |table| ==> IdNumber(table[i]) < IdNumber(table[j]))
  }

  /** `Math.max(...table.map(row => row.testId), 0)`: the largest id, or 0 for an empty table. */
  function MaxId(table: seq<Record>): (m: int)
    ensures 0 <= m
    ensures forall i :: 0 <= i < |table| ==> IdNumber(table[i]) <= m
    ensures m == 0 || exists i :: 0 <= i < |table| && IdNumber(table[i]) == m
  {
    if |table| == 0 then 0
    else
      var m := MaxId(table[..|table| - 1]);
      var last := IdNumber(table[|table| - 1]);
      if last > m then last else m
  }

  /** In an ascending table the largest id is the last row's. */
  lemma MaxIdIsLast(table: seq<Record>)
    requires IdsAscending(table) && |table| > 0
    ensures MaxId(table) == IdNumber(table[|table| - 1])
  {
  }

  /** Create mode: append the draft with id `MaxId + 1` and the creation time. The
      new id exceeds every id present, so an empty table yields id 1. */
  function Create(table: seq<Record>, draft: Record, now: string): (t: seq<Record>)
    ensures |t| == |table| + 1 && t[..|table|] == table
    ensures t[|table|] == draft.(testId := t[|table|].testId, creationDate := now)
    ensures t[|table|].testId.Some? && IdNumber(t[|table|]) >= 1
    ensures forall i :: 0 <= i < |table| ==> IdNumber(table[i]) < IdNumber(t[|table|])
    ensures |table| == 0 ==> t[0].testId == Some(1)
  {
    table + [draft.(testId := Some(MaxId(table) + 1), creationDate := now)]
  }

  /** Appending a row whose id exceeds every id present keeps the table ascending. */
  lemma AppendKeepsAscending(table: seq<Record>, r: Record)
    requires IdsAscending(table)
    requires r.testId.Some? && IdNumber(r) >= 1
    requires forall i :: 0 <= i < |table| ==> IdNumber(table[i]) < IdNumber(r)
    ensures IdsAscending(table + [r])
  {
    var t := table + [r];
    forall i | 0 <= i < |t| ensures t[i] == if i < |table| then table[i] else r {
    }
  }

  /** A create keeps the ids ascending, the new one directly following the last. */
  lemma CreateKeepsAscending(table: seq<Record>, draft: Record, now: string)
    requires IdsAscending(table)
    ensures IdsAscending(Create(table, draft, now))
    ensures |table| > 0 ==> Create(table, draft, now)[|table|].testId == Some(IdNumber(table[|table| - 1]) + 1)
  {
    var t := Create(table, draft, now);
    var n := |table|;
    if n > 0 {
      MaxIdIsLast(table);
    }
    assert t == table + [t[n]];
    AppendKeepsAscending(table, t[n]);
  }

  /** Right after a create the largest id is the one just assigned. */
  lemma MaxIdAfterCreate(table: seq<Record>, draft: Record, now: string)
    ensures MaxId(Create(table, draft, now)) == IdNumber(Create(table, draft, now)[|table|])
  {
    var t := Create(table, draft, now);
    assert t[..|t| - 1] == table;
  }

  /** Two creates in a row append the same data twice under consecutive ids. */
  lemma CreateTwice(table: seq<Record>, d: Record, now1: string, now2: string)
    ensures var t := Create(Create(table, d, now1), d, now2);
            var n := |table|;
            && |t| == n + 2
            && t[..n] == table
            && t[n] == d.(testId := t[n].testId, creationDate := now1)
            && t[n + 1] == d.(testId := t[n + 1].testId, creationDate := now2)
            && IdNumber(t[n + 1]) == IdNumber(t[n]) + 1
  {
    var n := |table|;
    var t1 := Create(table, d, now1);
    var t2 := Create(t1, d, now2);
    MaxIdAfterCreate(table, d, now1);
    assert t2[n] == t1[n] by {
      assert t2[..n + 1][n] == t2[n];
    }
    assert t2[..n] == table by {
      assert t2[..n] == t2[..n + 1][..n];
    }
  }

  /** The row an update writes over a matching one: the draft stamped with the update time. */
  function Updated(draft: Record, now: string): (r: Record)
    ensures forall f :: FieldValue(r, f) == FieldValue(draft, f)
    ensures r.testId == draft.testId && r.creationDate == draft.creationDate
    ensures r.lastUpdationDate == now
  {
    draft.(lastUpdationDate := now)
  }

  /** Edit mode: every row whose id equals the draft's is replaced by the stamped draft. */
  function Update(table: seq<Record>, draft: Record, now: string): (t: seq<Record>)
    ensures |t| == |table|
    ensures forall i :: 0 <= i < |t| ==> t[i].testId == table[i].testId
    ensures forall i :: 0 <= i < |t| && table[i].testId != draft.testId ==> t[i] == table[i]
    ensures forall i :: 0 <= i < |t| && table[i].testId == draft.testId ==> t[i] == Updated(draft, now)
  {
    if |table| == 0 then []
    else
      var head := if table[0].testId == draft.testId then Updated(draft, now) else table[0];
      [head] + Update(table[1..], draft, now)
  }

  /** A property every row and the stamped draft have holds of every row after an update. */
  lemma UpdateKeepsAll(table: seq<Record>, draft: Record, now: string, P: Record -> bool)
    requires forall i :: 0 <= i < |table| ==> P(table[i])
    requires P(Updated(draft, now))
    ensures forall i :: 0 <= i < |table| ==> P(Update(table, draft, now)[i])
  {
  }

  /** An update keeps every id in place, so the ids stay ascending. */
  lemma UpdateKeepsAscending(table: seq<Record>, draft: Record, now: string)
    requires IdsAscending(table)
    ensures IdsAscending(Update(table, draft, now))
  {
    var t := Update(table, draft, now);
    assert forall i :: 0 <= i < |t| ==> IdNumber(t[i]) == IdNumber(table[i]);
  }

  /** With unique ids, an update changes exactly the one row carrying the draft's id. */
  lemma {:induction false} UpdateReplacesOne(table: seq<Record>, draft: Record, now: string, k: nat)
    requires IdsAscending(table) && k < |table| && table[k].testId == draft.testId
    ensures Update(table, draft, now) == table[k := Updated(draft, now)]
  {
    var t := Update(table, draft, now);
    forall i | 0 <= i < |table| ensures t[i] == table[k := Updated(draft, now)][i] {
      if i != k {
        assert IdNumber(table[i]) != IdNumber(table[k]);
      }
    }
  }

  /** An update keeps every creation time when the draft carries the creation time of
      the one row that has its id. */
  lemma UpdateKeepsCreationDates(table: seq<Record>, draft: Record, now: string, j: nat)
    requires IdsAscending(table) && j < |table|
    requires table[j].testId == draft.testId && table[j].creationDate == draft.creationDate
    ensures forall k :: 0 <= k < |table| ==> Update(table, draft, now)[k].creationDate == table[k].creationDate
  {
    var t := Update(table, draft, now);
    forall k | 0 <= k < |table| ensures t[k].creationDate == table[k].creationDate {
      if table[k].testId == draft.testId {
        assert IdNumber(table[k]) == IdNumber(table[j]);
        assert k == j;
      }
    }
  }

  /** An update whose id matches no row leaves the table as it was. */
  lemma UpdateAbsent(table: seq<Record>, draft: Record, now: string)
    requires forall i :: 0 <= i < |table| ==> table[i].testId != draft.testId
    ensures Update(table, draft, now) == table
  {
  }

  /** Dropping the first row keeps the table ascending. */
  lemma AscendingTail(table: seq<Record>)
    requires IdsAscending(table) && |table| > 0
    ensures IdsAscending(table[1..])
  {
    forall i, j | 0 <= i < j < |table| - 1 ensures IdNumber(table[1..][i]) < IdNumber(table[1..][j]) {
      assert table[1..][i] == table[i + 1] && table[1..][j] == table[j + 1];
    }
  }

  /** `table.filter(row => row.testId !== id)`. */
  function Remove(table: seq<Record>, id: Option<int>): (t: seq<Record>)
    ensures |t| <= |table|
    ensures forall j :: 0 <= j < |t| ==> t[j].testId != id
  {
    if |table| == 0 then []
    else
      var rest := Remove(table[1..], id);
      if table[0].testId == id then rest else [table[0]] + rest
  }

  /** A delete keeps exactly the rows whose id differs from the one deleted. */
  lemma {:induction false} RemoveContents(table: seq<Record>, id: Option<int>)
    ensures forall r :: r in Remove(table, id) <==> r in table && r.testId != id
  {
    if |table| > 0 {
      RemoveContents(table[1..], id);
      assert table == [table[0]] + table[1..];
    }
  }

  /** Putting in front a row whose id is below every id present keeps the table ascending. */
  lemma PrependKeepsAscending(r: Record, table: seq<Record>)
    requires IdsAscending(table)
    requires r.testId.Some? && IdNumber(r) >= 1
    requires forall j :: 0 <= j < |table| ==> IdNumber(r) < IdNumber(table[j])
    ensures IdsAscending([r] + table)
  {
    var t := [r] + table;
    forall i | 0 <= i < |t| ensures t[i] == if i == 0 then r else table[i - 1] {
    }
  }

  /** A delete keeps the ids of the remaining rows ascending. */
  lemma {:induction false} RemoveKeepsAscending(table: seq<Record>, id: Option<int>)
    requires IdsAscending(table)
    ensures IdsAscending(Remove(table, id))
  {
    if |table| > 0 {
      var tail := table[1..];
      AscendingTail(table);
      RemoveKeepsAscending(tail, id);
      if table[0].testId != id {
        var rest := Remove(tail, id);
        RemoveContents(tail, id);
        forall j | 0 <= j < |rest| ensures IdNumber(table[0]) < IdNumber(rest[j]) {
          assert rest[j] in tail;
          var k :| 0 <= k < |tail| && tail[k] == rest[j];
          assert tail[k] == table[k + 1];
        }
        PrependKeepsAscending(table[0], rest);
      }
    }
  }

  /** A delete whose id matches no row leaves the table as it was. */
  lemma {:induction false} RemoveAbsent(table: seq<Record>, id: Option<int>)
    requires forall i :: 0 <= i < |table| ==> table[i].testId != id
    ensures Remove(table, id) == table
  {
    if |table| > 0 {
      RemoveAbsent(table[1..], id);
      assert table == [table[0]] + table[1..];
    }
  }

  /** Deleting the first row's id of an ascending table leaves exactly the rest. */
  lemma RemoveFirst(table: seq<Record>)
    requires IdsAscending(table) && |table| > 0
    ensures Remove(table, table[0].testId) == table[1..]
  {
    var tail := table[1..];
    forall i | 0 <= i < |tail| ensures tail[i].testId != table[0].testId {
      assert IdNumber(table[0]) < IdNumber(table[i + 1]);
    }
    RemoveAbsent(tail, table[0].testId);
  }

  /** With unique ids, a delete takes out exactly the row carrying that id and keeps
      the others in their order. */
  lemma {:induction false} RemoveTakesOutOne(table: seq<Record>, k: nat)
    requires IdsAscending(table) && k < |table|
    ensures Remove(table, table[k].testId) == table[..k] + table[k + 1..]
  {
    if k == 0 {
      RemoveFirst(table);
    } else {
      var tail := table[1..];
      AscendingTail(table);
      assert IdNumber(table[0]) < IdNumber(table[k]);
      assert tail[k - 1] == table[k];
      RemoveTakesOutOne(tail, k - 1);
      calc {
        Remove(table, table[k].testId);
        [table[0]] + Remove(tail, table[k].testId);
        [table[0]] + (tail[..k - 1] + tail[k..]);
        { assert tail[..k - 1] == table[1..k] && tail[k..] == table[k + 1..]; }
        [table[0]] + table[1..k] + table[k + 1..];
        { assert table[..k] == [table[0]] + table[1..k]; }
        table[..k] + table[k + 1..];
      }
    }
  }

  /** Deleting the last row's id of an ascending table leaves the rows before it. */
  lemma RemoveLast(table: seq<Record>)
    requires IdsAscending(table) && |table| > 0
    ensures Remove(table, table[|table| - 1].testId) == table[..|table| - 1]
    ensures IdsAscending(table[..|table| - 1])
  {
    var n := |table| - 1;
    RemoveTakesOutOne(table, n);
    assert table[n + 1..] == [];
    assert table[..n] + [] == table[..n];
  }

  /** Ids are unique only among the rows present: deleting the last row frees its id,
      and the next create takes an id no larger than it — the very same id when the
      two last ids were consecutive or the table held one row. */
  lemma DeletedLastIdIsReused(table: seq<Record>, draft: Record, now: string)
    requires IdsAscending(table) && |table| > 0
    ensures var n := |table| - 1;
            var t := Create(Remove(table, table[n].testId), draft, now);
            && |t| == |table|
            && IdNumber(t[n]) <= IdNumber(table[n])
            && (n == 0 ==> t[n].testId == Some(1))
            && (n > 0 && IdNumber(table[n - 1]) + 1 == IdNumber(table[n]) ==> t[n].testId == table[n].testId)
  {
    var n := |table| - 1;
    var rest := table[..n];
    RemoveLast(table);
    CreateKeepsAscending(rest, draft, now);
    if n > 0 {
      assert rest[n - 1] == table[n - 1];
      assert IdNumber(table[n - 1]) < IdNumber(table[n]);
    }
  }
}
