/** The repositories as an in-memory store: one table of records per entity,
    keyed by the id the store generated, and the statements `BaseRepo`,
    `ArchivableRepo` and the inherited `JpaRepository` calls run on it. */
module Repositories {
  import opened Wrappers
  import opened Collections
  import opened Entities
  import opened Table

  /** A repository over one table. `nextId` is the IDENTITY column's next
      value. */
  class Repo<D> {
    var rows: map<int, Record<D>>
    var nextId: int

    /** Every row is stored under its own id, and every id was generated. */
    predicate Valid()
      reads this
    {
      1 <= nextId && forall k | k in rows :: rows[k].id == Some(k) && 1 <= k < nextId
    }

    /** An empty table. */
    constructor ()
      ensures Valid() && rows == map[] && nextId == 1
    {
      rows := map[];
      nextId := 1;
    }

    /** `save` of a new entity: the row gets the next generated id. */
    method Insert(r: Record<D>) returns (id: int)
      requires Valid() && r.id.None?
      modifies this
      ensures Valid()
      ensures id == old(nextId) && id !in old(rows) && nextId == id + 1
      ensures rows == old(rows)[id := r.(id := Some(id))]
    {
      id := nextId;
      rows := rows[id := r.(id := Some(id))];
      nextId := nextId + 1;
    }

    /** `save` of an entity read from this table: its row is overwritten. */
    method Update(r: Record<D>)
      requires Valid() && r.id.Some? && r.id.value in rows
      modifies this`rows
      ensures Valid() && rows == old(rows)[r.id.value := r]
    {
      rows := rows[r.id.value := r];
    }

    /** The conditional flag update, evaluating the IN list id by id: a row
        not yet switched flips when its id comes up. */
    method UpdateFlagByIds(ids: seq<int>, from: bool) returns (count: int)
      requires Valid()
      modifies this`rows
      ensures Valid()
      ensures rows == SetFlag(old(rows), Some(IdSet(ids)), from)
      ensures count == |Matching(old(rows), Some(IdSet(ids)), from)|
    {
      count := 0;
      ghost var done: set<int> := {};
      for i := 0 to |ids|
        invariant done == IdSet(ids[..i])
        invariant rows == SetFlag(old(rows), Some(done), from)
        invariant count == |Matching(old(rows), Some(done), from)|
      {
        var x := ids[i];
        SetFlagStep(old(rows), done, x, from);
        if x in rows && rows[x].isArchived == from {
          rows := rows[x := rows[x].(isArchived := !from)];
          count := count + 1;
        }
        IdSetPrefix(ids, i);
        done := done + {x};
      }
      assert ids[..|ids|] == ids;
      SetFlagKeepsIds(old(rows), Some(done), from);
    }

    /** `archiveByIds`: archives the active rows among `ids`. */
    method ArchiveByIds(ids: seq<int>) returns (count: int)
      requires Valid()
      modifies this`rows
      ensures Valid()
      ensures rows == SetFlag(old(rows), Some(IdSet(ids)), false)
      ensures count == |Matching(old(rows), Some(IdSet(ids)), false)| <= |ids|
    {
      MatchingBound(rows, ids, false);
      count := UpdateFlagByIds(ids, false);
    }

    /** `restoreByIds`: restores the archived rows among `ids`. */
    method RestoreByIds(ids: seq<int>) returns (count: int)
      requires Valid()
      modifies this`rows
      ensures Valid()
      ensures rows == SetFlag(old(rows), Some(IdSet(ids)), true)
      ensures count == |Matching(old(rows), Some(IdSet(ids)), true)| <= |ids|
    {
      MatchingBound(rows, ids, true);
      count := UpdateFlagByIds(ids, true);
    }

    /** `archiveAllActive`: archives every active row. */
    method ArchiveAllActive() returns (count: int)
      requires Valid()
      modifies this`rows
      ensures Valid()
      ensures rows == SetFlag(old(rows), None, false)
      ensures count == |Matching(old(rows), None, false)|
      ensures forall k | k in rows :: rows[k].isArchived
    {
      var keys := SortedKeys(rows.Keys);
      assert IdSet(keys) == rows.Keys;
      SetFlagAllKeys(rows, false);
      count := UpdateFlagByIds(keys, false);
      SetFlagAllLeavesNone(old(rows), false);
    }

    /** `restoreAllArchived`: restores every archived row. */
    method RestoreAllArchived() returns (count: int)
      requires Valid()
      modifies this`rows
      ensures Valid()
      ensures rows == SetFlag(old(rows), None, true)
      ensures count == |Matching(old(rows), None, true)|
      ensures forall k | k in rows :: !rows[k].isArchived
    {
      var keys := SortedKeys(rows.Keys);
      assert IdSet(keys) == rows.Keys;
      SetFlagAllKeys(rows, true);
      count := UpdateFlagByIds(keys, true);
      SetFlagAllLeavesNone(old(rows), true);
    }

    /** `deleteByIdsIfArchived`: removes the archived rows among `ids`, id by
        id. */
    method DeleteByIdsIfArchived(ids: seq<int>) returns (count: int)
      requires Valid()
      modifies this`rows
      ensures Valid()
      ensures rows == DeleteArchived(old(rows), Some(IdSet(ids)))
      ensures count == |Matching(old(rows), Some(IdSet(ids)), true)| <= |ids|
    {
      MatchingBound(rows, ids, true);
      count := 0;
      ghost var done: set<int> := {};
      for i := 0 to |ids|
        invariant done == IdSet(ids[..i])
        invariant rows == DeleteArchived(old(rows), Some(done))
        invariant count == |Matching(old(rows), Some(done), true)|
      {
        var x := ids[i];
        DeleteStep(old(rows), done, x);
        if x in rows && rows[x].isArchived {
          rows := rows - {x};
          count := count + 1;
        }
        IdSetPrefix(ids, i);
        done := done + {x};
      }
      assert ids[..|ids|] == ids;
      DeleteArchivedKeepsRows(old(rows), Some(done));
    }

    /** The ids of the rows whose flag is `archived`, in ascending order
        (`findAllByIsArchivedFalse` and `findAllByIsArchivedTrue`). */
    function FindAllByIsArchived(archived: bool): (r: seq<int>)
      reads this
      ensures forall k :: k in r <==> k in Matching(rows, None, archived)
      ensures StrictlyAscending(r)
    {
      FindAll(rows, (x: Record<D>) => x.isArchived == archived)
    }
  }

  /** The two flag queries never share a row and between them list every row. */
  lemma FindAllByIsArchivedPartition<D>(repo: Repo<D>)
    ensures forall k | k in repo.FindAllByIsArchived(false) :: k !in repo.FindAllByIsArchived(true)
    ensures forall k | k in repo.rows :: k in repo.FindAllByIsArchived(false) || k in repo.FindAllByIsArchived(true)
  {
    Partition(repo.rows);
  }
}

/** `BoardRepository`: a purgeable repository with a name query. */
module BoardRepository {
  import opened Wrappers
  import opened Collections
  import opened Text
  import opened Entities
  import opened Table
  import opened Repositories

  /** `lower(name) like lower(concat(:prefix, '%'))`, with the prefix read as
      plain text; a null name never matches. */
  predicate NameStartsWith(name: Option<string>, prefix: string) {
    name.Some? && StartsWith(ToLower(name.value), ToLower(prefix))
  }

  /** `findNamesByPrefix(prefix)`: the name of every board, archived or not,
      whose name starts with `prefix` ignoring case, one per board. */
  function FindNamesByPrefix(repo: Repo<BoardData>, prefix: string): (names: seq<Option<string>>)
    reads repo
    ensures forall i | 0 <= i < |names| :: NameStartsWith(names[i], prefix)
  {
    Project(repo.rows, FindAll(repo.rows, PrefixFilter(prefix)), BoardName)
  }

  function PrefixFilter(prefix: string): BoardRecord -> bool {
    (b: BoardRecord) => NameStartsWith(b.data.name, prefix)
  }

  function BoardName(b: BoardRecord): Option<string> {
    b.data.name
  }

  /** The query lists exactly the boards with a matching name, each once. */
  lemma FindNamesByPrefixBoards(repo: Repo<BoardData>, prefix: string)
    ensures |FindNamesByPrefix(repo, prefix)| ==
      |set k | k in repo.rows && NameStartsWith(repo.rows[k].data.name, prefix)|
    ensures forall k | k in repo.rows && NameStartsWith(repo.rows[k].data.name, prefix) ::
      repo.rows[k].data.name in FindNamesByPrefix(repo, prefix)
  {
    var keep := PrefixFilter(prefix);
    ProjectFindAll(repo.rows, keep, BoardName);
    PrefixFilterSet(repo.rows, prefix);
    forall k | k in repo.rows && NameStartsWith(repo.rows[k].data.name, prefix)
      ensures repo.rows[k].data.name in FindNamesByPrefix(repo, prefix)
    {
      assert keep(repo.rows[k]);
    }
  }

  lemma PrefixFilterSet(rows: Rows<BoardData>, prefix: string)
    ensures (set k | k in rows && PrefixFilter(prefix)(rows[k])) ==
      (set k | k in rows && NameStartsWith(rows[k].data.name, prefix))
  {
  }

  /** `deleteAllByIsArchivedTrue`, which only the board repository offers:
      removes every archived board. */
  method DeleteAllByIsArchivedTrue(repo: Repo<BoardData>) returns (count: int)
    requires repo.Valid()
    modifies repo`rows
    ensures repo.Valid()
    ensures repo.rows == DeleteArchived(old(repo.rows), None)
    ensures count == |Matching(old(repo.rows), None, true)|
    ensures forall k | k in repo.rows :: !repo.rows[k].isArchived
  {
    var keys := SortedKeys(repo.rows.Keys);
    assert IdSet(keys) == repo.rows.Keys;
    AllKeysIsUnrestricted(repo.rows, true);
    count := repo.DeleteByIdsIfArchived(keys);
    assert forall k | k in old(repo.rows) :: k in IdSet(keys);
  }
}

/** `TaskRepository`: a repository with specification queries and a
    board-scoped name query, but no purge. */
module TaskRepository {
  import opened Wrappers
  import opened Collections
  import opened Text
  import opened Entities
  import opened Table
  import opened Repositories
  import opened Specifications
  import opened TaskSpecifications
  import BoardRepository

  /** `findAll(spec)`: the ids of the tasks the specification list accepts,
      in ascending order. */
  function FindAllBySpec(repo: Repo<TaskData>, specs: seq<Option<Spec>>): (r: seq<int>)
    reads repo
    ensures forall k :: k in r <==> k in repo.rows && AllOf(specs, TaskColumns(repo.rows[k]))
    ensures StrictlyAscending(r)
  {
    FindAll(repo.rows, (t: TaskRecord) => AllOf(specs, TaskColumns(t)))
  }

  /** The query's WHERE clause: the board, the active flag and the prefix. */
  predicate NameQueryMatches(t: TaskRecord, boardId: int, prefix: string) {
    t.data.boardId == Some(boardId) && !t.isArchived && BoardRepository.NameStartsWith(t.data.name, prefix)
  }

  /** `findNamesByPrefixForBoard(boardId, prefix)`: the names of the active
      tasks of that board whose name starts with `prefix` ignoring case. */
  function FindNamesByPrefixForBoard(repo: Repo<TaskData>, boardId: int, prefix: string): (names: seq<Option<string>>)
    reads repo
    ensures forall i | 0 <= i < |names| :: BoardRepository.NameStartsWith(names[i], prefix)
  {
    Project(repo.rows, FindAll(repo.rows, NameQueryFilter(boardId, prefix)), TaskName)
  }

  function NameQueryFilter(boardId: int, prefix: string): TaskRecord -> bool {
    (t: TaskRecord) => NameQueryMatches(t, boardId, prefix)
  }

  function TaskName(t: TaskRecord): Option<string> {
    t.data.name
  }

  /** The query lists exactly the matching active tasks of the board, each
      once: an archived task or one of another board never appears. */
  lemma FindNamesByPrefixForBoardTasks(repo: Repo<TaskData>, boardId: int, prefix: string)
    ensures |FindNamesByPrefixForBoard(repo, boardId, prefix)| ==
      |set k | k in repo.rows && NameQueryMatches(repo.rows[k], boardId, prefix)|
    ensures forall k | k in repo.rows && NameQueryMatches(repo.rows[k], boardId, prefix) ::
      repo.rows[k].data.name in FindNamesByPrefixForBoard(repo, boardId, prefix)
  {
    var keep := NameQueryFilter(boardId, prefix);
    ProjectFindAll(repo.rows, keep, TaskName);
    NameQueryFilterSet(repo.rows, boardId, prefix);
    forall k | k in repo.rows && NameQueryMatches(repo.rows[k], boardId, prefix)
      ensures repo.rows[k].data.name in FindNamesByPrefixForBoard(repo, boardId, prefix)
    {
      assert keep(repo.rows[k]);
    }
  }

  lemma NameQueryFilterSet(rows: Rows<TaskData>, boardId: int, prefix: string)
    ensures (set k | k in rows && NameQueryFilter(boardId, prefix)(rows[k])) ==
      (set k | k in rows && NameQueryMatches(rows[k], boardId, prefix))
  {
  }
}
