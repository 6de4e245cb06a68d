/** Properties that relate several repository operations: reading back what
    was written, the merge rule of `update`, destructive `delete`, the size
    of `all`, the id allocator's reuse of ids, and the text-length rules. */
module RepositoryProperties {
  import opened Todos
  import opened MemoryRepository

  // ---------------------------------------------------------------------
  // Reading back

  /** A record is visible to `find` as soon as `create` returns it. */
  lemma FindAfterCreate(m: Store, payload: CreateTodo)
    ensures var (m', todo) := Created(m, payload);
      Lookup(m', todo.id) == Ok(todo) && todo == NewTodo(todo.id, payload.text)
  {
  }

  /** `create`, `update` and `delete` keep every record under its own id. */
  lemma OperationsKeepWellKeyed(m: Store, cp: CreateTodo, id: i32, up: UpdateTodo)
    requires WellKeyed(m)
    ensures WellKeyed(Created(m, cp).0)
    ensures WellKeyed(Updated(m, id, up).0)
    ensures WellKeyed(Deleted(m, id).0)
  {
  }

  /** An id that is not stored makes `find`, `update` and `delete` fail with
      `NotFound` of that id, and none of them changes the store. */
  lemma AbsentIdFails(m: Store, id: i32, payload: UpdateTodo)
    requires id !in m
    ensures Lookup(m, id) == Err(NotFound(id))
    ensures Updated(m, id, payload) == (m, Err(NotFound(id)))
    ensures Deleted(m, id) == (m, Err(NotFound(id)))
  {
  }

  // ---------------------------------------------------------------------
  // update

  /** After a successful `update`, `find` returns what `update` returned. */
  lemma FindAfterUpdate(m: Store, id: i32, payload: UpdateTodo)
    requires id in m
    ensures var (m', r) := Updated(m, id, payload); r.Ok? && Lookup(m', id) == r
  {
  }

  /** An update that carries neither field leaves the store as it was and
      returns the stored record. */
  lemma EmptyUpdateChangesNothing(m: Store, id: i32)
    requires WellKeyed(m) && id in m
    ensures Updated(m, id, UpdateTodo(None, None)) == (m, Ok(m[id]))
  {
    assert m[id := m[id]] == m;
  }

  /** Repeating an update with the same payload changes nothing more and
      returns the same record. */
  lemma UpdateIdempotent(m: Store, id: i32, payload: UpdateTodo)
    ensures var (m', r) := Updated(m, id, payload); Updated(m', id, payload) == (m', r)
  {
    if id in m {
      var (m', r) := Updated(m, id, payload);
      assert m'[id := r.value] == m';
    }
  }

  // ---------------------------------------------------------------------
  // delete

  /** `delete` is destructive: afterwards `find` fails for that id, and a
      second `delete` fails with `NotFound` while leaving the store as the
      first one left it. */
  lemma DeleteIsDestructive(m: Store, id: i32)
    ensures var (m', _) := Deleted(m, id);
      && Lookup(m', id) == Err(NotFound(id))
      && Deleted(m', id) == (m', Err(NotFound(id)))
  {
  }

  // ---------------------------------------------------------------------
  // all

  /** The ids of a sequence of records. */
  ghost function IdSet(s: seq<Todo>): (ids: set<i32>) {
    set i | 0 <= i < |s| :: s[i].id
  }

  /** Records with pairwise distinct ids have as many ids as records. */
  lemma {:induction false} DistinctIdsCount(s: seq<Todo>)
    requires forall i, j :: 0 <= i < j < |s| ==> s[i].id != s[j].id
    ensures |IdSet(s)| == |s|
  {
    if s != [] {
      var prefix := s[..|s| - 1];
      DistinctIdsCount(prefix);
      assert IdSet(s) == IdSet(prefix) + {s[|s| - 1].id};
      assert s[|s| - 1].id !in IdSet(prefix);
    }
  }

  /** A listing of the store has exactly one element per stored id. */
  lemma ListingHasStoreSize(s: seq<Todo>, m: Store)
    requires ListsStore(s, m)
    ensures IdSet(s) == m.Keys
    ensures |s| == |m|
  {
    DistinctIdsCount(s);
    forall k | k in m ensures k in IdSet(s) {
      var i :| 0 <= i < |s| && s[i].id == k;
    }
  }

  /** `all` on a store that holds one record lists exactly that record. */
  lemma ListingOfSingleRecord(s: seq<Todo>, todo: Todo)
    requires ListsStore(s, map[todo.id := todo])
    ensures s == [todo]
  {
    ListingHasStoreSize(s, map[todo.id := todo]);
  }

  /** Every stored record occurs in a listing of the store. */
  lemma ListedRecord(s: seq<Todo>, m: Store, id: i32)
    requires ListsStore(s, m) && id in m
    ensures m[id] in s
  {
  }

  /** In records with pairwise distinct ids, each record occurs at most
      once. */
  lemma {:induction false} OccursOnce(s: seq<Todo>, todo: Todo)
    requires forall i, j :: 0 <= i < j < |s| ==> s[i].id != s[j].id
    ensures multiset(s)[todo] == if todo in s then 1 else 0
  {
    if s != [] {
      var prefix, last := s[..|s| - 1], s[|s| - 1];
      assert s == prefix + [last];
      OccursOnce(prefix, todo);
      if last == todo {
        assert todo !in prefix;
      }
    }
  }

  /** Only the order of `all` is left open: two listings of the same store
      hold the same records. */
  lemma ListingsArePermutations(s1: seq<Todo>, s2: seq<Todo>, m: Store)
    requires ListsStore(s1, m) && ListsStore(s2, m)
    ensures multiset(s1) == multiset(s2)
  {
    forall todo ensures multiset(s1)[todo] == multiset(s2)[todo] {
      OccursOnce(s1, todo);
      OccursOnce(s2, todo);
      if todo in s1 {
        ListedRecord(s2, m, todo.id);
      } else if todo in s2 {
        ListedRecord(s1, m, todo.id);
      }
    }
  }

  // ---------------------------------------------------------------------
  // The id allocator

  /** The store holds exactly the ids 1 .. |m|, as it does after creates
      with no delete in between. */
  ghost predicate Dense(m: Store) {
    forall k :: k in m <==> 1 <= k as int <= |m|
  }

  /** `create` applied to each payload in turn. */
  function CreateAll(m: Store, payloads: seq<CreateTodo>): (m': Store)
    decreases |payloads|
  {
    if payloads == [] then m else CreateAll(Created(m, payloads[0]).0, payloads[1..])
  }

  /** On a dense store, `create` uses a fresh id and the store stays
      dense. */
  lemma CreateKeepsDense(m: Store, payload: CreateTodo)
    requires Dense(m) && |m| < 0x7FFF_FFFF
    ensures NextId(m) !in m
    ensures Dense(Created(m, payload).0) && |Created(m, payload).0| == |m| + 1
  {
    var id := NextId(m);
    assert id as int == |m| + 1;
    var m' := Created(m, payload).0;
    assert |m'| == |m| + 1;
    forall k: i32 ensures k in m' <==> 1 <= k as int <= |m'| {
      if k != id {
        assert k in m' <==> k in m;
      }
    }
  }

  /** Creates with no delete in between keep a dense store dense and add one
      record each. */
  lemma {:induction false} CreateAllKeepsDense(m: Store, payloads: seq<CreateTodo>)
    requires Dense(m) && |m| + |payloads| < 0x8000_0000
    ensures Dense(CreateAll(m, payloads))
    ensures |CreateAll(m, payloads)| == |m| + |payloads|
    decreases |payloads|
  {
    if payloads != [] {
      CreateKeepsDense(m, payloads[0]);
      CreateAllKeepsDense(Created(m, payloads[0]).0, payloads[1..]);
    }
  }

  /** After N creates on a new repository, `all` lists N records with
      pairwise distinct ids, and these ids are 1 .. N. */
  lemma AllAfterCreates(payloads: seq<CreateTodo>, s: seq<Todo>)
    requires |payloads| < 0x8000_0000
    requires ListsStore(s, CreateAll(map[], payloads))
    ensures |s| == |payloads|
    ensures forall i :: 0 <= i < |s| ==> 1 <= s[i].id as int <= |payloads|
  {
    CreateAllKeepsDense(map[], payloads);
    ListingHasStoreSize(s, CreateAll(map[], payloads));
  }

  /** The id allocator counts records, not ids handed out: after deleting
      any record but the one with the highest id from a dense store, the
      next `create` lands on that highest id and replaces its record, so
      the store ends up one record smaller than before the delete. */
  lemma CreateAfterDeleteOverwrites(m: Store, id: i32, payload: CreateTodo)
    requires Dense(m) && |m| < 0x7FFF_FFFF
    requires id in m && id as int != |m|
    ensures var (m1, _) := Deleted(m, id);
      var (m2, todo) := Created(m1, payload);
      && todo.id as int == |m|
      && todo.id in m1 && m1[todo.id] == m[todo.id]
      && m2[todo.id] == todo
      && m2.Keys == m1.Keys
      && |m2| == |m| - 1
  {
  }

  /** Deleting the record with the highest id of a dense store and creating
      again hands out the deleted id a second time. */
  lemma CreateAfterDeletingLastReusesId(m: Store, payload: CreateTodo)
    requires Dense(m) && 1 <= |m| < 0x7FFF_FFFF
    ensures var last := |m| as i32;
      var (m1, _) := Deleted(m, last);
      var (m2, todo) := Created(m1, payload);
      && last in m && last !in m1
      && todo.id == last
      && Lookup(m2, last) == Ok(todo)
  {
  }

  // ---------------------------------------------------------------------
  // Text-length rules

  /** Every stored text satisfies the length rules. */
  ghost predicate TextsValid(m: Store) {
    forall k :: k in m ==> ValidText(m[k].text)
  }

  /** Payloads that pass validation keep every stored text between 1 and 100
      characters; the repository itself does not check them. */
  lemma ValidPayloadsKeepTextsValid(m: Store, cp: CreateTodo, id: i32, up: UpdateTodo)
    requires TextsValid(m)
    ensures cp.Valid() ==> TextsValid(Created(m, cp).0)
    ensures up.Valid() ==> TextsValid(Updated(m, id, up).0)
    ensures TextsValid(Deleted(m, id).0)
  {
  }

  /** The length rules on their boundaries: an empty text is refused, 1 and
      100 characters are accepted, 101 are refused; an update without text is
      accepted whatever `completed` says. */
  lemma ValidationBoundaries()
    ensures !CreateTodo("").Valid()
    ensures CreateTodo("a").Valid()
    ensures CreateTodo(seq(100, _ => 'x')).Valid()
    ensures !CreateTodo(seq(101, _ => 'x')).Valid()
    ensures UpdateTodo(None, Some(true)).Valid() && UpdateTodo(None, None).Valid()
    ensures UpdateTodo(None, Some(false)).Valid()
    ensures UpdateTodo(Some("a"), None).Valid()
    ensures UpdateTodo(Some(seq(100, _ => 'x')), Some(true)).Valid()
    ensures !UpdateTodo(Some(""), Some(false)).Valid()
    ensures !UpdateTodo(Some(seq(101, _ => 'x')), None).Valid()
  {
  }

  // ---------------------------------------------------------------------
  // Client scenarios, using only the contracts of the class

  /** The create / find / all / update / delete walk-through on a new
      repository. */
  method CrudScenario() {
    var repository := new TodoRepositoryForMemory();
    var expected := NewTodo(1, "todo text");

    var todo := repository.Create(CreateTodo("todo text"));
    assert todo == expected;

    var found := repository.Find(1);
    assert found == Ok(expected);

    var all := repository.All();
    ListingOfSingleRecord(all, expected);
    assert all == [expected];

    var updated := repository.Update(1, UpdateTodo(Some("update todo"), None));
    assert updated == Ok(Todo(1, "update todo", false));

    var deleted := repository.Delete(1);
    assert deleted.Ok?;
    found := repository.Find(1);
    assert found == Err(NotFound(1));
  }

  /** `all` after two creates lists both records. */
  method TwoRecordListingScenario() {
    var repository := new TodoRepositoryForMemory();
    var a := repository.Create(CreateTodo("a"));
    assert a == Todo(1, "a", false);
    var b := repository.Create(CreateTodo("b"));
    assert b == Todo(2, "b", false);
    assert repository.store == map[1 := a, 2 := b];

    var all := repository.All();
    ListingHasStoreSize(all, repository.store);
    ListedRecord(all, repository.store, 1);
    ListedRecord(all, repository.store, 2);
    assert |all| == 2 && a in all && b in all;
  }

  /** After two creates: an update of `completed` only keeps the text, and
      a repeated delete fails the second time. */
  method TwoRecordUpdateDeleteScenario() {
    var repository := new TodoRepositoryForMemory();
    var a := repository.Create(CreateTodo("a"));
    var b := repository.Create(CreateTodo("b"));
    assert repository.store == map[1 := a, 2 := b];

    var updated := repository.Update(1, UpdateTodo(None, Some(true)));
    assert updated == Ok(Todo(1, "a", true));

    var deleted := repository.Delete(2);
    assert deleted == Ok(());
    deleted := repository.Delete(2);
    assert deleted == Err(NotFound(2));
  }

  /** The id allocator replacing a record: after one delete, the next create
      reuses the id of a record that is still stored. */
  method IdCollisionScenario() {
    var repository := new TodoRepositoryForMemory();
    var a := repository.Create(CreateTodo("a"));
    var b := repository.Create(CreateTodo("b"));
    var deleted := repository.Delete(1);
    assert deleted == Ok(());

    var c := repository.Create(CreateTodo("c"));
    assert c == Todo(2, "c", false);
    var found := repository.Find(2);
    assert found == Ok(c) && found != Ok(b);
    assert |repository.store| == 1;
  }
}
