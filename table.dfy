/** The rows of one entity table, keyed by id, and the meaning of the bulk
    JPQL statements the repositories declare over them: a conditional flag
    update and a conditional delete, each optionally restricted to a
    collection of ids (`where e.id in :ids`). */
module Table {
  import opened Wrappers
  import opened Collections
  import opened Entities

  type Rows<D> = map<int, Record<D>>

  /** The ids a `:ids` collection parameter puts in the IN list. */
  function IdSet(ids: seq<int>): set<int> {
    set i | i in ids
  }

  /** The ids a statement's WHERE clause selects: those in `ids` (every row
      when `ids` is None) whose archived flag is `flag`. */
  function Matching<D>(rows: Rows<D>, ids: Option<set<int>>, flag: bool): set<int> {
    set k | k in rows && (ids.None? || k in ids.value) && rows[k].isArchived == flag
  }

  /** `update e set e.isArchived = !from where <ids> and e.isArchived = from`. */
  function SetFlag<D>(rows: Rows<D>, ids: Option<set<int>>, from: bool): (r: Rows<D>)
    ensures r.Keys == rows.Keys
  {
    map k | k in rows :: if k in Matching(rows, ids, from) then rows[k].(isArchived := !from) else rows[k]
  }

  /** `delete from e where <ids> and e.isArchived = true`. */
  function DeleteArchived<D>(rows: Rows<D>, ids: Option<set<int>>): (r: Rows<D>)
    ensures r.Keys == rows.Keys - Matching(rows, ids, true)
  {
    map k | k in rows && k !in Matching(rows, ids, true) :: rows[k]
  }

  /** A flag update changes exactly the selected rows, and in them only the
      flag; no row appears or disappears. */
  lemma SetFlagChanges<D>(rows: Rows<D>, ids: Option<set<int>>, from: bool, k: int)
    requires k in rows
    ensures SetFlag(rows, ids, from)[k] != rows[k] <==> k in Matching(rows, ids, from)
    ensures SetFlag(rows, ids, from)[k] == rows[k].(isArchived := SetFlag(rows, ids, from)[k].isArchived)
    ensures k in Matching(rows, ids, from) ==> SetFlag(rows, ids, from)[k].isArchived == !from
  {
  }

  /** Repeating a flag update immediately selects nothing. */
  lemma SetFlagAgain<D>(rows: Rows<D>, ids: Option<set<int>>, from: bool)
    ensures Matching(SetFlag(rows, ids, from), ids, from) == {}
  {
    var r := SetFlag(rows, ids, from);
    forall k | k in r && (ids.None? || k in ids.value) ensures r[k].isArchived != from {
    }
  }

  /** After the unrestricted update no row is left in the source state:
      `archiveAllActive` leaves no active row, `restoreAllArchived` no
      archived one. */
  lemma SetFlagAllLeavesNone<D>(rows: Rows<D>, from: bool)
    ensures forall k | k in SetFlag(rows, None, from) :: SetFlag(rows, None, from)[k].isArchived == !from
  {
  }

  /** The opposite update applied to exactly the rows the first one changed
      gives the original table back. */
  lemma SetFlagUndo<D>(rows: Rows<D>, ids: Option<set<int>>, from: bool)
    ensures SetFlag(SetFlag(rows, ids, from), Some(Matching(rows, ids, from)), !from) == rows
  {
    var r := SetFlag(rows, ids, from);
    var back := SetFlag(r, Some(Matching(rows, ids, from)), !from);
    assert Matching(r, Some(Matching(rows, ids, from)), !from) == Matching(rows, ids, from);
    assert forall k | k in rows :: back[k] == rows[k];
  }

  lemma SubsetCard(a: set<int>, b: set<int>)
    requires a <= b
    ensures |a| <= |b|
  {
    assert b == a + (b - a);
    assert a * (b - a) == {};
  }

  lemma {:induction false} IdSetCard(ids: seq<int>)
    ensures |IdSet(ids)| <= |ids|
    ensures NoDup(ids) ==> |IdSet(ids)| == |ids|
  {
    if ids != [] {
      IdSetCard(ids[1..]);
      assert IdSet(ids) == IdSet(ids[1..]) + {ids[0]};
      if NoDup(ids) {
        assert NoDup(ids[1..]);
        forall j | 0 <= j < |ids[1..]| ensures ids[1..][j] != ids[0] {
          assert ids[1..][j] == ids[j + 1];
        }
        assert ids[0] !in ids[1..];
      }
    }
  }

  /** A statement restricted to an id list affects at most as many rows as
      the list has distinct ids. */
  lemma MatchingBound<D>(rows: Rows<D>, ids: seq<int>, flag: bool)
    ensures |Matching(rows, Some(IdSet(ids)), flag)| <= |IdSet(ids)| <= |ids|
  {
    SubsetCard(Matching(rows, Some(IdSet(ids)), flag), IdSet(ids));
    IdSetCard(ids);
  }

  /** The active and the archived rows are disjoint and together are all rows. */
  lemma Partition<D>(rows: Rows<D>)
    ensures Matching(rows, None, false) * Matching(rows, None, true) == {}
    ensures Matching(rows, None, false) + Matching(rows, None, true) == rows.Keys
    ensures |Matching(rows, None, false)| + |Matching(rows, None, true)| == |rows|
  {
    var a := Matching(rows, None, false);
    var b := Matching(rows, None, true);
    assert a + b == rows.Keys;
    assert |a + b| + |a * b| == |a| + |b|;
  }

  /** A conditional delete removes exactly the selected archived rows, as
      many as it selected, and keeps every other row as it was; active rows
      always survive. */
  lemma DeleteArchivedRemoves<D>(rows: Rows<D>, ids: Option<set<int>>)
    ensures |DeleteArchived(rows, ids)| == |rows| - |Matching(rows, ids, true)|
    ensures forall k | k in DeleteArchived(rows, ids) :: DeleteArchived(rows, ids)[k] == rows[k]
    ensures forall k | k in rows && !rows[k].isArchived :: k in DeleteArchived(rows, ids)
  {
    var m := Matching(rows, ids, true);
    var r := DeleteArchived(rows, ids);
    assert rows.Keys == r.Keys + m;
    assert r.Keys * m == {};
    assert |rows.Keys| == |r.Keys| + |m|;
  }

  /** Repeating a conditional delete immediately removes nothing. */
  lemma DeleteArchivedAgain<D>(rows: Rows<D>, ids: Option<set<int>>)
    ensures Matching(DeleteArchived(rows, ids), ids, true) == {}
  {
    var r := DeleteArchived(rows, ids);
    forall k | k in r && (ids.None? || k in ids.value) ensures !r[k].isArchived {
    }
  }

  /** Restricting a statement to every key is the same as not restricting it. */
  lemma AllKeysIsUnrestricted<D>(rows: Rows<D>, flag: bool)
    ensures Matching(rows, Some(rows.Keys), flag) == Matching(rows, None, flag)
  {
  }

  /** The unrestricted update is the update restricted to every key. */
  lemma SetFlagAllKeys<D>(rows: Rows<D>, from: bool)
    ensures Matching(rows, Some(rows.Keys), from) == Matching(rows, None, from)
    ensures SetFlag(rows, Some(rows.Keys), from) == SetFlag(rows, None, from)
  {
    AllKeysIsUnrestricted(rows, from);
  }

  /** A flag update keeps every row's id. */
  lemma SetFlagKeepsIds<D>(rows: Rows<D>, ids: Option<set<int>>, from: bool)
    ensures forall k | k in SetFlag(rows, ids, from) :: SetFlag(rows, ids, from)[k].id == rows[k].id
  {
  }

  /** A conditional delete keeps the surviving rows as they were. */
  lemma DeleteArchivedKeepsRows<D>(rows: Rows<D>, ids: Option<set<int>>)
    ensures forall k | k in DeleteArchived(rows, ids) :: k in rows && DeleteArchived(rows, ids)[k] == rows[k]
  {
  }

  /** One more id in the IN list changes the table by at most that row: the
      induction step of evaluating the list id by id. */
  lemma SetFlagStep<D>(rows: Rows<D>, s: set<int>, x: int, from: bool)
    ensures var cur := SetFlag(rows, Some(s), from);
      SetFlag(rows, Some(s + {x}), from) ==
        (if x in cur && cur[x].isArchived == from then cur[x := cur[x].(isArchived := !from)] else cur)
    ensures var cur := SetFlag(rows, Some(s), from);
      Matching(rows, Some(s + {x}), from) ==
        Matching(rows, Some(s), from) + (if x in cur && cur[x].isArchived == from then {x} else {})
    ensures var cur := SetFlag(rows, Some(s), from);
      x in cur && cur[x].isArchived == from ==> x !in Matching(rows, Some(s), from)
  {
    var cur := SetFlag(rows, Some(s), from);
    var next := SetFlag(rows, Some(s + {x}), from);
    var expected := if x in cur && cur[x].isArchived == from then cur[x := cur[x].(isArchived := !from)] else cur;
    assert next.Keys == expected.Keys;
    forall k | k in next ensures next[k] == expected[k] {
      if k == x && x in cur && cur[x].isArchived == from {
        assert k !in Matching(rows, Some(s), from);
      }
    }
  }

  /** The same step for a conditional delete. */
  lemma DeleteStep<D>(rows: Rows<D>, s: set<int>, x: int)
    ensures var cur := DeleteArchived(rows, Some(s));
      DeleteArchived(rows, Some(s + {x})) ==
        (if x in cur && cur[x].isArchived then cur - {x} else cur)
    ensures var cur := DeleteArchived(rows, Some(s));
      Matching(rows, Some(s + {x}), true) ==
        Matching(rows, Some(s), true) + (if x in cur && cur[x].isArchived then {x} else {})
    ensures var cur := DeleteArchived(rows, Some(s));
      x in cur && cur[x].isArchived ==> x !in Matching(rows, Some(s), true)
  {
  }

  /** The ids among `keys`, in order, whose row satisfies `keep`. */
  function Where<D>(rows: Rows<D>, keys: seq<int>, keep: Record<D> -> bool): (r: seq<int>)
    requires forall k | k in keys :: k in rows
    ensures forall k | k in r :: k in keys && keep(rows[k])
    ensures forall k | k in keys && keep(rows[k]) :: k in r
    ensures |r| <= |keys|
  {
    if keys == [] then []
    else
      var rest := Where(rows, keys[1..], keep);
      var k0 := keys[0];
      assert k0 in keys;
      assert k0 in rows;
      (if keep(rows[keys[0]]) then [keys[0]] else []) + rest
  }

  /** Filtering keeps the order of the keys: a strictly ascending sequence of
      keys gives a strictly ascending result. */
  lemma {:induction false} WhereAscending<D>(rows: Rows<D>, keys: seq<int>, keep: Record<D> -> bool)
    requires forall k | k in keys :: k in rows
    requires StrictlyAscending(keys)
    ensures StrictlyAscending(Where(rows, keys, keep))
  {
    if keys != [] {
      AscendingTail(keys);
      WhereAscending(rows, keys[1..], keep);
      var rest := Where(rows, keys[1..], keep);
      var k0 := keys[0];
      assert k0 in keys;
      var head := if keep(rows[k0]) then [k0] else [];
      assert Where(rows, keys, keep) == head + rest;
      AscendingCons(head, keys, rest);
    }
  }

  /** The tail of an ascending sequence is ascending. */
  lemma AscendingTail(keys: seq<int>)
    requires keys != [] && StrictlyAscending(keys)
    ensures StrictlyAscending(keys[1..])
    ensures forall k | k in keys[1..] :: keys[0] < k
  {
    forall i, j | 0 <= i < j < |keys[1..]| ensures keys[1..][i] < keys[1..][j] {
      assert keys[1..][i] == keys[i + 1] && keys[1..][j] == keys[j + 1];
    }
    forall k | k in keys[1..] ensures keys[0] < k {
      var j :| 0 <= j < |keys[1..]| && keys[1..][j] == k;
      assert keys[j + 1] == k;
    }
  }

  /** At most the first key in front of an ascending sequence of later keys
      keeps it ascending. */
  lemma AscendingCons(head: seq<int>, keys: seq<int>, rest: seq<int>)
    requires keys != [] && (head == [] || head == [keys[0]])
    requires StrictlyAscending(rest) && forall k | k in rest :: keys[0] < k
    ensures StrictlyAscending(head + rest)
  {
    var r := head + rest;
    forall i, j | 0 <= i < j < |r| ensures r[i] < r[j] {
      if i < |head| {
        assert r[j] in rest;
      } else {
        assert r[i] == rest[i - |head|] && r[j] == rest[j - |head|];
      }
    }
  }

  /** The rows of a whole table satisfying `keep`, in ascending id order:
      how this model orders a query without an ORDER BY. */
  function FindAll<D>(rows: Rows<D>, keep: Record<D> -> bool): (r: seq<int>)
    ensures forall k :: k in r <==> k in rows && keep(rows[k])
    ensures StrictlyAscending(r)
  {
    var keys := SortedKeys(rows.Keys);
    WhereAscending(rows, keys, keep);
    Where(rows, keys, keep)
  }

  /** A query lists each selected row once. */
  lemma FindAllCount<D>(rows: Rows<D>, keep: Record<D> -> bool)
    ensures |FindAll(rows, keep)| == |set k | k in rows && keep(rows[k])|
  {
    var ks := FindAll(rows, keep);
    assert IdSet(ks) == set k | k in rows && keep(rows[k]);
    AscendingNoDup(ks);
    IdSetCard(ks);
  }

  /** A column of the rows a query selects, in the query's order. */
  function Project<D, X>(rows: Rows<D>, ks: seq<int>, column: Record<D> -> X): (r: seq<X>)
    requires forall i | 0 <= i < |ks| :: ks[i] in rows
    ensures |r| == |ks|
    ensures forall i | 0 <= i < |ks| :: r[i] == column(rows[ks[i]])
  {
    seq(|ks|, i requires 0 <= i < |ks| && ks[i] in rows => column(rows[ks[i]]))
  }

  /** Projecting a query: one value per selected row, and the value of every
      selected row is there. */
  lemma ProjectFindAll<D, X>(rows: Rows<D>, keep: Record<D> -> bool, column: Record<D> -> X)
    ensures |Project(rows, FindAll(rows, keep), column)| == |set k | k in rows && keep(rows[k])|
    ensures forall k | k in rows && keep(rows[k]) :: column(rows[k]) in Project(rows, FindAll(rows, keep), column)
    ensures forall x | x in Project(rows, FindAll(rows, keep), column) :: exists k :: k in rows && keep(rows[k]) && x == column(rows[k])
  {
    var ks := FindAll(rows, keep);
    var p := Project(rows, ks, column);
    FindAllCount(rows, keep);
    forall k | k in rows && keep(rows[k]) ensures column(rows[k]) in p {
      var i :| 0 <= i < |ks| && ks[i] == k;
      assert p[i] == column(rows[k]);
    }
    forall x | x in p ensures exists k :: k in rows && keep(rows[k]) && x == column(rows[k]) {
      var i :| 0 <= i < |p| && p[i] == x;
      assert ks[i] in ks;
    }
  }

  /** The rows at `ks`, in that order. */
  function RecordsAt<D>(rows: Rows<D>, ks: seq<int>): (r: seq<Record<D>>)
    requires forall i | 0 <= i < |ks| :: ks[i] in rows
    ensures |r| == |ks|
    ensures forall i | 0 <= i < |ks| :: r[i] == rows[ks[i]]
  {
    seq(|ks|, i requires 0 <= i < |ks| && ks[i] in rows => rows[ks[i]])
  }

  /** A one-element IN list selects that row when it exists and has the
      flag, and nothing otherwise. */
  lemma SingleMatching<D>(rows: Rows<D>, id: int, flag: bool)
    ensures IdSet([id]) == {id}
    ensures Matching(rows, Some({id}), flag) ==
      (if id in rows && rows[id].isArchived == flag then {id} else {})
  {
  }

  /** A flag update that selects no row leaves the table as it was. */
  lemma SetFlagNoMatch<D>(rows: Rows<D>, ids: Option<set<int>>, from: bool)
    requires Matching(rows, ids, from) == {}
    ensures SetFlag(rows, ids, from) == rows
  {
  }

  /** A flag update of one selected row flips that row's flag only. */
  lemma SetFlagOne<D>(rows: Rows<D>, id: int, from: bool)
    requires id in rows && rows[id].isArchived == from
    ensures SetFlag(rows, Some({id}), from) == rows[id := rows[id].(isArchived := !from)]
  {
    SingleMatching(rows, id, from);
  }

  /** A delete that selects no row leaves the table as it was. */
  lemma DeleteNoMatch<D>(rows: Rows<D>, ids: Option<set<int>>)
    requires Matching(rows, ids, true) == {}
    ensures DeleteArchived(rows, ids) == rows
  {
  }

  /** A delete of one selected row removes that row only. */
  lemma DeleteOne<D>(rows: Rows<D>, id: int)
    requires id in rows && rows[id].isArchived
    ensures DeleteArchived(rows, Some({id})) == rows - {id}
  {
    SingleMatching(rows, id, true);
  }

  /** The IN list of a concatenation holds the ids of both parts. */
  lemma IdSetAppend(a: seq<int>, b: seq<int>)
    ensures IdSet(a + b) == IdSet(a) + IdSet(b)
  {
  }

  /** One more element of a list adds that id to its IN list. */
  lemma IdSetPrefix(s: seq<int>, i: int)
    requires 0 <= i < |s|
    ensures IdSet(s[..i + 1]) == IdSet(s[..i]) + {s[i]}
  {
    assert s[..i + 1] == s[..i] + [s[i]];
  }
}
