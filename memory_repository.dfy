/** The in-memory todo repository: a single map from id to record, and the
    five operations on it.  The pure functions below say what each operation
    does to the map; the class `TodoRepositoryForMemory` performs the
    operations in place on its `store` field and is proved against them. */
module MemoryRepository {
  import opened Todos

  /** The contents of the store. */
  type Store = map<i32, Todo>

  /** Every record is stored under its own id. */
  ghost predicate WellKeyed(m: Store) {
    forall k :: k in m ==> m[k].id == k
  }

  /** The id `create` hands out: the number of records plus one, cast to
      `i32`. */
  function NextId(m: Store): (id: i32)
    ensures |m| < 0x7FFF_FFFF ==> id as int == |m| + 1
  {
    TruncateToI32(|m| + 1)
  }

  /** `find`: the record stored under `id`, or `NotFound(id)`. */
  function Lookup(m: Store, id: i32): (r: Result<Todo>)
    ensures r.Ok? <==> id in m
    ensures r.Ok? ==> r.value == m[id]
    ensures r.Err? ==> r.error == NotFound(id)
  {
    if id in m then Ok(m[id]) else Err(NotFound(id))
  }

  /** `create`: the new store and the record it returns.  The record is put
      under `NextId(m)` whether or not that id is already taken, so an
      existing record with that id is replaced. */
  function Created(m: Store, payload: CreateTodo): (r: (Store, Todo))
    ensures r.1.id == NextId(m) && r.1.text == payload.text && !r.1.completed
    ensures r.0.Keys == m.Keys + {r.1.id}
    ensures r.0[r.1.id] == r.1
    ensures forall k :: k in m && k != r.1.id ==> r.0[k] == m[k]
    ensures |r.0| == if r.1.id in m then |m| else |m| + 1
  {
    var todo := NewTodo(NextId(m), payload.text);
    (m[todo.id := todo], todo)
  }

  /** `update`: the new store and the outcome. */
  function Updated(m: Store, id: i32, payload: UpdateTodo): (r: (Store, Result<Todo>))
    ensures id !in m ==> r.0 == m && r.1 == Err(NotFound(id))
    ensures id in m ==> r.1 == Ok(Merged(m[id], id, payload))
    ensures r.0.Keys == m.Keys && |r.0| == |m|
    ensures id in m ==> r.0[id] == r.1.value
    ensures forall k :: k in m && k != id ==> r.0[k] == m[k]
  {
    if id !in m then (m, Err(NotFound(id)))
    else
      var todo := Merged(m[id], id, payload);
      (m[id := todo], Ok(todo))
  }

  /** `delete`: the new store and the outcome. */
  function Deleted(m: Store, id: i32): (r: (Store, Result<()>))
    ensures id !in m ==> r.0 == m && r.1 == Err(NotFound(id))
    ensures id in m ==> r.1 == Ok(())
    ensures r.0.Keys == m.Keys - {id}
    ensures |r.0| == if id in m then |m| - 1 else |m|
    ensures forall k :: k in r.0 ==> r.0[k] == m[k]
  {
    if id in m then (m - {id}, Ok(())) else (m, Err(NotFound(id)))
  }

  /** `s` is a listing of the store: every element is the record stored
      under its id, no id occurs twice, and every stored id occurs. */
  ghost predicate ListsStore(s: seq<Todo>, m: Store) {
    && (forall i :: 0 <= i < |s| ==> s[i].id in m && m[s[i].id] == s[i])
    && (forall i, j :: 0 <= i < j < |s| ==> s[i].id != s[j].id)
    && (forall k :: k in m ==> exists i :: 0 <= i < |s| && s[i].id == k)
  }

  /** `TodoRepositoryForMemory`.  The lock around the map is not modelled:
      each method is one atomic step on `store`. */
  class TodoRepositoryForMemory {
    var store: Store

    ghost predicate Valid()
      reads this
    {
      WellKeyed(store)
    }

    /** `TodoRepositoryForMemory::new`: an empty store. */
    constructor ()
      ensures Valid() && store == map[]
    {
      store := map[];
    }

    method Create(payload: CreateTodo) returns (todo: Todo)
      requires Valid()
      modifies this
      ensures Valid()
      ensures (store, todo) == Created(old(store), payload)
    {
      var id := TruncateToI32(|store| + 1);
      todo := NewTodo(id, payload.text);
      store := store[id := todo];
    }

    method Find(id: i32) returns (r: Result<Todo>)
      ensures r == Lookup(store, id)
    {
      if id in store {
        r := Ok(store[id]);
      } else {
        r := Err(NotFound(id));
      }
    }

    /** `all`: one copy of every stored record, in an unspecified order
        (the map's iteration order is left open by choosing keys with
        `:|`). */
    method All() returns (todos: seq<Todo>)
      requires Valid()
      ensures ListsStore(todos, store)
    {
      todos := [];
      var rest := store.Keys;
      while rest != {}
        invariant rest <= store.Keys
        invariant forall i :: 0 <= i < |todos| ==>
          todos[i].id in store && store[todos[i].id] == todos[i] && todos[i].id !in rest
        invariant forall i, j :: 0 <= i < j < |todos| ==> todos[i].id != todos[j].id
        invariant forall k :: k in store && k !in rest ==> exists i :: 0 <= i < |todos| && todos[i].id == k
        decreases rest
      {
        var k :| k in rest;
        ghost var listed := todos;
        todos := todos + [store[k]];
        rest := rest - {k};
        forall k' | k' in store && k' !in rest
          ensures exists i :: 0 <= i < |todos| && todos[i].id == k'
        {
          if k' == k {
            assert todos[|todos| - 1].id == k';
          } else {
            var i :| 0 <= i < |listed| && listed[i].id == k';
            assert todos[i] == listed[i];
          }
        }
      }
    }

    method Update(id: i32, payload: UpdateTodo) returns (r: Result<Todo>)
      requires Valid()
      modifies this
      ensures Valid()
      ensures (store, r) == Updated(old(store), id, payload)
    {
      if id !in store {
        return Err(NotFound(id));
      }
      var stored := store[id];
      var text := payload.text.GetOr(stored.text);
      var completed := payload.completed.GetOr(stored.completed);
      var todo := Todo(id, text, completed);
      store := store[id := todo];
      r := Ok(todo);
    }

    method Delete(id: i32) returns (r: Result<()>)
      requires Valid()
      modifies this
      ensures Valid()
      ensures (store, r) == Deleted(old(store), id)
    {
      if id in store {
        store := store - {id};
        r := Ok(());
      } else {
        r := Err(NotFound(id));
      }
    }
  }
}
