/** The notes service: the business rules over two tables, the notes and the
    projects, each keyed by id. The store is modelled as two maps held by the
    service object; the id sequence of the notes table is a counter. */
module NotesService {
  import opened Entities
  import opened JsNumbers

  /** JavaScript truthiness of an optional number: present, not NaN, not 0. */
  predicate TruthyNum(n: Option<Num>) {
    n.Some? && n.value.Int? && n.value.value != 0
  }

  /** The limits the model admits: undefined (the default 10 applies) or an
      integer of at least 1. */
  predicate ValidLimit(limit: Option<Num>) {
    limit.None? || (limit.value.Int? && limit.value.value >= 1)
  }

  /** The `take` of findAll's query: `limit`, or 10 when it is undefined. */
  function TakeCount(limit: Option<Num>): (n: nat)
    requires ValidLimit(limit)
    ensures n >= 1
  {
    if limit.None? then 10 else limit.value.value
  }

  /** A search text with none of the LIKE metacharacters of PostgreSQL. */
  predicate PlainSearch(s: string) {
    forall i :: 0 <= i < |s| ==> s[i] != '%' && s[i] != '_' && s[i] != '\\'
  }

  /** `s` occurs in `t` as a contiguous substring: what `LIKE '%s%'` matches
      when `s` holds no LIKE metacharacter. */
  predicate Contains(t: string, s: string) {
    s <= t || (t != [] && Contains(t[1..], s))
  }

  /** Contains means what it says: `s` is a prefix of some suffix of `t`. */
  lemma {:induction false} ContainsOccurs(t: string, s: string)
    ensures Contains(t, s) <==> exists k :: 0 <= k <= |t| && s <= t[k..]
  {
    if s <= t {
      assert t[0..] == t;
    } else if t == [] {
      assert forall k :: 0 <= k <= |t| ==> t[k..] == t;
    } else {
      ContainsOccurs(t[1..], s);
      if Contains(t[1..], s) {
        var k :| 0 <= k <= |t[1..]| && s <= t[1..][k..];
        assert t[1..][k..] == t[k + 1..];
      }
      if k :| 0 <= k <= |t| && s <= t[k..] {
        assert k != 0;
        assert t[k..] == t[1..][k - 1..];
      }
    }
  }

  /** The where-clause findAll builds: the project always, a title pattern
      for a truthy search, an exact id for a truthy cursor. */
  datatype Where = Where(projectId: int, titleContains: Option<string>, id: Option<int>)

  function WhereOf(projectId: int, cursor: Option<Num>, search: Option<string>): (w: Where)
    ensures w.projectId == projectId
    ensures w.titleContains.Some? <==> Truthy(search)
    ensures w.titleContains.Some? ==> w.titleContains == search
    ensures w.id.Some? <==> TruthyNum(cursor)
    ensures w.id.Some? ==> cursor == Some(Int(w.id.value))
  {
    Where(projectId,
          if Truthy(search) then search else None,
          if TruthyNum(cursor) then Some(cursor.value.value) else None)
  }

  predicate Matches(n: Note, w: Where) {
    && n.projectId == w.projectId
    && (w.titleContains.Some? ==> Contains(n.title, w.titleContains.value))
    && (w.id.Some? ==> n.id == w.id.value)
  }

  function MatchingIds(notes: map<int, Note>, w: Where): set<int> {
    set id | id in notes && Matches(notes[id], w)
  }

  lemma {:induction false} LeastExists(s: set<int>)
    requires s != {}
    ensures exists m :: m in s && forall x :: x in s ==> m <= x
    decreases |s|
  {
    var y := PickOne(s);
    var rest := s - {y};
    if rest == {} {
      assert s == rest + {y};
      assert s == {y};
    } else {
      LeastExists(rest);
      var m :| m in rest && forall x :: x in rest ==> m <= x;
      var least := if y < m then y else m;
      assert forall x :: x in s ==> x == y || x in rest;
      assert least in s && forall x :: x in s ==> least <= x;
    }
  }

  lemma PickOne(s: set<int>) returns (y: int)
    requires s != {}
    ensures y in s
  {
    NonEmptyHasElement(s);
    y :| y in s;
  }

  lemma NonEmptyHasElement(s: set<int>)
    ensures s != {} ==> exists x :: x in s
  {
    if forall x :: x !in s {
      assert s == {};
    }
  }

  function Least(s: set<int>): (m: int)
    requires s != {}
    ensures m in s && forall x :: x in s ==> m <= x
  {
    LeastExists(s);
    var m :| m in s && forall x :: x in s ==> m <= x;
    m
  }

  /** The `limit` smallest elements of `s` in ascending order: what an
      `ORDER BY id ASC` query with `take: limit` returns of the ids in `s`. */
  function FirstAscending(s: set<int>, limit: nat): (r: seq<int>)
    ensures |r| == if limit < |s| then limit else |s|
    ensures forall i :: 0 <= i < |r| ==> r[i] in s
    ensures forall i, j :: 0 <= i < j < |r| ==> r[i] < r[j]
    ensures forall x, i :: x in s && 0 <= i < |r| && x < r[i] ==> x in r
    ensures |r| < limit ==> forall x :: x in s ==> x in r
    decreases limit
  {
    if limit == 0 || s == {} then []
    else
      var m := Least(s);
      [m] + FirstAscending(s - {m}, limit - 1)
  }

  /** The rows of `notes` that match `where`, ascending by id, at most
      `take` of them: the `find` call of findAll. */
  function Query(notes: map<int, Note>, where: Where, take: nat): (rows: seq<Note>)
    requires forall id :: id in notes ==> notes[id].id == id
    ensures forall n :: n in rows ==> n.id in notes && notes[n.id] == n && Matches(n, where)
    ensures forall i, j :: 0 <= i < j < |rows| ==> rows[i].id < rows[j].id
    ensures |rows| == Min(take, |MatchingIds(notes, where)|)
    ensures forall id, i :: (id in MatchingIds(notes, where) && 0 <= i < |rows| && id < rows[i].id) ==> notes[id] in rows
    ensures |rows| < take ==> forall id :: id in MatchingIds(notes, where) ==> notes[id] in rows
  {
    var matching := MatchingIds(notes, where);
    var ids := FirstAscending(matching, take);
    var rows := RowsOf(notes, ids);
    RowsOfIds(notes, where, matching, ids, rows);
    rows
  }

  /** The rows stored under the given ids, in the same order. */
  function RowsOf(notes: map<int, Note>, ids: seq<int>): (rows: seq<Note>)
    requires forall i :: 0 <= i < |ids| ==> ids[i] in notes
    ensures |rows| == |ids| && forall i :: 0 <= i < |ids| ==> rows[i] == notes[ids[i]]
  {
    if ids == [] then [] else [notes[ids[0]]] + RowsOf(notes, ids[1..])
  }

  lemma RowsOfIds(notes: map<int, Note>, where: Where, matching: set<int>, ids: seq<int>, rows: seq<Note>)
    requires forall id :: id in notes ==> notes[id].id == id
    requires matching == MatchingIds(notes, where)
    requires forall i :: 0 <= i < |ids| ==> ids[i] in matching
    requires forall i, j :: 0 <= i < j < |ids| ==> ids[i] < ids[j]
    requires forall x, i :: x in matching && 0 <= i < |ids| && x < ids[i] ==> x in ids
    requires |rows| == |ids| && forall i :: 0 <= i < |ids| ==> rows[i] == notes[ids[i]]
    ensures forall n :: n in rows ==> n.id in notes && notes[n.id] == n && Matches(n, where)
    ensures forall i, j :: 0 <= i < j < |rows| ==> rows[i].id < rows[j].id
    ensures forall id :: id in ids ==> notes[id] in rows
    ensures forall id, i :: (id in matching && 0 <= i < |rows| && id < rows[i].id) ==> notes[id] in rows
  {
    forall id | id in ids ensures notes[id] in rows {
      var k :| 0 <= k < |ids| && ids[k] == id;
      assert rows[k] == notes[id];
    }
    forall n | n in rows ensures n.id in notes && notes[n.id] == n && Matches(n, where) {
      var k :| 0 <= k < |rows| && rows[k] == n;
      assert ids[k] in matching;
    }
    forall id, i | id in matching && 0 <= i < |rows| && id < rows[i].id ensures notes[id] in rows {
      assert rows[i].id == ids[i];
      assert id in ids;
    }
  }

  /** An exact-id condition selects at most one row. */
  lemma ExactIdMatchesAtMostOne(notes: map<int, Note>, where: Where)
    requires forall id :: id in notes ==> notes[id].id == id
    ensures where.id.Some? ==> |MatchingIds(notes, where)| <= 1
  {
    if where.id.Some? {
      var matching := MatchingIds(notes, where);
      assert forall id :: id in matching ==> id == where.id.value;
      if where.id.value in matching {
        assert matching == {where.id.value};
      } else {
        assert matching == {};
      }
    }
  }

  class NotesService {
    /** The notes table, keyed by id. */
    var notes: map<int, Note>
    /** The projects table, keyed by id. */
    var projects: map<int, Project>
    /** The next value of the notes id sequence. */
    var nextId: int

    /** Every row is stored under its own id; note ids are positive and below
        the next value of the sequence, so a new id is never in use. */
    ghost predicate Valid()
      reads this
    {
      && 0 < nextId
      && (forall id :: id in notes ==> notes[id].id == id && 0 < id < nextId)
      && (forall id :: id in projects ==> projects[id].id == id)
    }

    constructor (projects: map<int, Project>, notes: map<int, Note>, nextId: int)
      requires 0 < nextId
      requires forall id :: id in notes ==> notes[id].id == id && 0 < id < nextId
      requires forall id :: id in projects ==> projects[id].id == id
      ensures Valid()
      ensures this.projects == projects && this.notes == notes && this.nextId == nextId
    {
      this.projects := projects;
      this.notes := notes;
      this.nextId := nextId;
    }

    /** findAll: the notes of a project, optionally narrowed by a title
        search and by an exact id ("cursor"), ascending by id, at most
        `limit` of them. */
    function FindAll(projectId: int, cursor: Option<Num>, limit: Option<Num>, search: Option<string>): (r: Result<seq<Note>>)
      reads this
      requires Valid()
      requires ValidLimit(limit)
      requires search.None? || PlainSearch(search.value)
      ensures r.Err? <==> projectId !in projects
      ensures r.Err? ==> r.error == BadRequest("Invalid projectId")
      // every returned note is a stored row of the project, and passes the filters
      ensures r.Ok? ==> forall n :: n in r.value ==> n.id in notes && notes[n.id] == n && n.projectId == projectId
      ensures r.Ok? && Truthy(search) ==> forall n :: n in r.value ==> Contains(n.title, search.value)
      ensures r.Ok? && TruthyNum(cursor) ==> forall n :: n in r.value ==> n.id == cursor.value.value
      ensures r.Ok? && TruthyNum(cursor) ==> |r.value| <= 1
      // ascending by id, at most `limit` rows
      ensures r.Ok? ==> forall i, j :: 0 <= i < j < |r.value| ==> r.value[i].id < r.value[j].id
      ensures r.Ok? ==> |r.value| <= TakeCount(limit)
      // the first `limit` matching rows: none skipped, and all of them when fewer
      ensures r.Ok? ==> |r.value| == Min(TakeCount(limit), |MatchingIds(notes, WhereOf(projectId, cursor, search))|)
      ensures r.Ok? ==> forall id, i ::
                          (id in notes && Matches(notes[id], WhereOf(projectId, cursor, search))
                           && 0 <= i < |r.value| && id < r.value[i].id) ==> notes[id] in r.value
      ensures r.Ok? && |r.value| < TakeCount(limit) ==>
                forall id :: id in notes && Matches(notes[id], WhereOf(projectId, cursor, search)) ==> notes[id] in r.value
    {
      if projectId !in projects then Err(BadRequest("Invalid projectId"))
      else
        var where := WhereOf(projectId, cursor, search);
        ExactIdMatchesAtMostOne(notes, where);
        Ok(Query(notes, where, TakeCount(limit)))
    }

    /** findOne: the row with this id, or NotFound. */
    function FindOne(id: int): (r: Result<Note>)
      reads this
      requires Valid()
      ensures r.Ok? <==> id in notes
      ensures r.Ok? ==> r.value == notes[id] && r.value.id == id
      ensures r.Err? ==> r.error == NotFound("Note with id " + IntToString(id) + " not found")
    {
      if id in notes then Ok(notes[id])
      else Err(NotFound("Note with id " + IntToString(id) + " not found"))
    }

    /** create: the project must exist; a note with the same title in the
        same project is a conflict when an idempotency key is given;
        otherwise the note is inserted under a fresh id. */
    method Create(note: NoteDraft, idempotencyKey: string) returns (r: Result<Note>)
      requires Valid()
      modifies this
      ensures Valid()
      ensures projects == old(projects)
      ensures note.projectId !in projects ==> r == Err(BadRequest("Invalid projectId"))
      ensures note.projectId in projects && HasTitle(old(notes), note.title, note.projectId) && idempotencyKey != "" ==>
                r == Err(Conflict("Note already exists"))
      ensures r.Ok? <==> note.projectId in projects && !(HasTitle(old(notes), note.title, note.projectId) && idempotencyKey != "")
      ensures r.Err? ==> notes == old(notes) && nextId == old(nextId)
      ensures r.Ok? ==> r.value.id !in old(notes)
      // the id comes from the sequence: above every earlier id, never reused
      ensures r.Ok? ==> old(nextId) <= r.value.id < nextId
      ensures r.Ok? ==> forall id :: id in old(notes) ==> id < r.value.id
      ensures r.Ok? ==> r.value == Note(r.value.id, note.title, note.content, note.projectId)
      ensures r.Ok? ==> notes == old(notes)[r.value.id := r.value]
      ensures r.Ok? ==> FindOne(r.value.id) == Ok(r.value)
    {
      if note.projectId !in projects {
        return Err(BadRequest("Invalid projectId"));
      }
      var existingNote := FindByTitle(notes, note.title, note.projectId);
      if existingNote.Some? && idempotencyKey != "" {
        return Err(Conflict("Note already exists"));
      }
      var saved := Insert(note);
      return Ok(saved);
    }

    /** The repository's save of a new row: the sequence assigns the id. */
    method Insert(note: NoteDraft) returns (saved: Note)
      requires Valid()
      modifies this
      ensures Valid()
      ensures projects == old(projects) && nextId > old(nextId)
      ensures saved.id !in old(notes)
      ensures old(nextId) <= saved.id < nextId
      ensures forall id :: id in old(notes) ==> id < saved.id
      ensures saved == Note(saved.id, note.title, note.content, note.projectId)
      ensures notes == old(notes)[saved.id := saved]
    {
      saved := Note(nextId, note.title, note.content, note.projectId);
      notes := notes[nextId := saved];
      nextId := nextId + 1;
    }

    /** update: NotFound for an unknown id; otherwise each field given in the
        patch replaces the stored one, and the merged row is saved. */
    method Update(id: int, noteData: NotePatch) returns (r: Result<Note>)
      requires Valid()
      modifies this
      ensures Valid()
      ensures projects == old(projects) && nextId == old(nextId)
      ensures r.Err? <==> id !in old(notes)
      ensures r.Err? ==> r.error == NotFound("Note with id " + IntToString(id) + " not found") && notes == old(notes)
      ensures r.Ok? ==> r.value == Merge(old(notes)[id], noteData) && notes == old(notes)[id := r.value]
      ensures r.Ok? ==> FindOne(id) == Ok(r.value)
    {
      if id !in notes {
        return Err(NotFound("Note with id " + IntToString(id) + " not found"));
      }
      var note := notes[id];
      note := note.(title := noteData.title.GetOr(note.title));
      note := note.(content := noteData.content.GetOr(note.content));
      note := note.(projectId := noteData.projectId.GetOr(note.projectId));
      notes := notes[id := note];
      return Ok(note);
    }

    /** delete: NotFound when no row has the id; otherwise the row is removed. */
    method Delete(id: int) returns (r: Result<()>)
      requires Valid()
      modifies this
      ensures Valid()
      ensures projects == old(projects) && nextId == old(nextId)
      ensures r.Err? <==> id !in old(notes)
      ensures r.Err? ==> r.error == NotFound("Note not found") && notes == old(notes)
      ensures r.Ok? ==> notes == old(notes) - {id}
      ensures FindOne(id).Err?
    {
      var affected := if id in notes then 1 else 0;
      notes := notes - {id};
      if affected == 0 {
        return Err(NotFound("Note not found"));
      }
      return Ok(());
    }
  }

  function Min(a: int, b: int): int {
    if a < b then a else b
  }

  /** Some row of the table has this title in this project. */
  predicate HasTitle(notes: map<int, Note>, title: string, projectId: int) {
    exists id :: id in notes && notes[id].title == title && notes[id].projectId == projectId
  }

  /** The repository's `findOne` by title and project: a row with both, or
      none. Without an ORDER BY the row is the store's choice; the model
      takes the one with the least id. */
  function FindByTitle(notes: map<int, Note>, title: string, projectId: int): (r: Option<Note>)
    requires forall id :: id in notes ==> notes[id].id == id
    ensures r.Some? <==> HasTitle(notes, title, projectId)
    ensures r.Some? ==> r.value.id in notes && notes[r.value.id] == r.value
    ensures r.Some? ==> r.value.title == title && r.value.projectId == projectId
  {
    var ids := set id | id in notes && notes[id].title == title && notes[id].projectId == projectId;
    assert forall id :: id in notes && notes[id].title == title && notes[id].projectId == projectId ==> id in ids;
    if ids == {} then None else Some(notes[Least(ids)])
  }

  /** `field ?? stored` for each field of the patch; the id is kept. */
  function Merge(stored: Note, patch: NotePatch): (n: Note)
    ensures n.id == stored.id
    ensures n.title == (if patch.title.Some? then patch.title.value else stored.title)
    ensures n.content == (if patch.content.Some? then patch.content.value else stored.content)
    ensures n.projectId == (if patch.projectId.Some? then patch.projectId.value else stored.projectId)
  {
    Note(stored.id,
         patch.title.GetOr(stored.title),
         patch.content.GetOr(stored.content),
         patch.projectId.GetOr(stored.projectId))
  }

  /** A falsy search (absent or empty) and a falsy cursor (absent, NaN or 0)
      filter nothing: findAll answers as if they were not given. */
  lemma FalsyFiltersAreIgnored(svc: NotesService, projectId: int, cursor: Option<Num>, limit: Option<Num>, search: Option<string>)
    requires svc.Valid()
    requires ValidLimit(limit)
    requires search.None? || PlainSearch(search.value)
    ensures !Truthy(search) ==> svc.FindAll(projectId, cursor, limit, search) == svc.FindAll(projectId, cursor, limit, None)
    ensures !TruthyNum(cursor) ==> svc.FindAll(projectId, cursor, limit, search) == svc.FindAll(projectId, None, limit, search)
  {
  }

  /** The scenario of a duplicate create: the first create succeeds, the
      second with the same title and project but another key is a conflict,
      and listing the project gives the one note. */
  method DuplicateCreateScenario() {
    var svc := new NotesService(map[1 := Project(1, "P1")], map[], 1);
    var first := svc.Create(NoteDraft("T", "C", 1), "k1");
    assert !HasTitle(map[], "T", 1);
    assert first.Ok?;
    assert HasTitle(svc.notes, "T", 1) by {
      assert svc.notes[first.value.id] == first.value;
    }
    var second := svc.Create(NoteDraft("T", "C", 1), "k2");
    assert second == Err(Conflict("Note already exists"));
    assert svc.notes == map[first.value.id := first.value];
    QueryOfOneRow(first.value, WhereOf(1, None, None), 10);
    var page := svc.FindAll(1, None, Some(Int(10)), None);
    assert page == Ok([first.value]);
  }

  /** A table of one row that matches the filter lists exactly that row. */
  lemma QueryOfOneRow(n: Note, where: Where, take: nat)
    requires Matches(n, where) && take >= 1
    ensures Query(map[n.id := n], where, take) == [n]
  {
    var notes := map[n.id := n];
    assert MatchingIds(notes, where) == {n.id};
    var rows := Query(notes, where, take);
    assert |rows| == 1;
    assert rows[0] in rows;
  }

  /** The id of a deleted note is not handed out again: a create after the
      delete gets a new id, and the deleted one stays absent. */
  method DeletedIdNotReusedScenario() {
    var svc := new NotesService(map[1 := Project(1, "P1")], map[], 1);
    var first := svc.Create(NoteDraft("T", "C", 1), "k1");
    assert !HasTitle(map[], "T", 1);
    assert first.Ok?;
    var deleted := svc.Delete(first.value.id);
    assert deleted.Ok?;
    var second := svc.Create(NoteDraft("T", "C", 1), "k2");
    assert second.Ok?;
    assert second.value.id > first.value.id;
    assert svc.FindOne(first.value.id).Err?;
  }
}
