# my-todo: the in-memory todo repository, in Dafny

This project models the in-memory backend of the todo service's repository,
`TodoRepositoryForMemory`. It also models the `Todo`, `CreateTodo` and
`UpdateTodo` records and their text-length rules.

The repository owns one map from `i32` id to `Todo` and has five operations:

- `create` gives the new record the id `store.len() + 1`, cast to `i32`. It sets
  `completed = false` and inserts the record, replacing any record already
  stored under that id.
- `find` returns the record stored under an id, or fails with `NotFound(id)`.
- `all` returns every stored record, in the map's unspecified iteration order.
- `update` fails with `NotFound(id)` when the id is absent. Otherwise it merges
  the payload's `text` and `completed` over the stored record (an absent field
  keeps the stored value), re-inserts it and returns it.
- `delete` removes the id, or fails with `NotFound(id)`.

The same backend appears twice in the repository, in `src/repositories/todo.rs`
and in the older `src/repositories.rs`. The logic is the same line for line;
the older file's lines are five further down. One Dafny class models both. The
class's rows below cite `todo.rs`, and the rows of the `MemoryRepository`
specification functions cite `repositories.rs`.

Layout:

- `todo.dfy`, module `Todos`: the `i32` id type, the `as i32` cast of a length,
  `Todo` and `Todo::new`, the two payloads with their `Valid()` length rules,
  the merge rule of `update`, `RepositoryError::NotFound` and a `Result` type.
- `memory_repository.dfy`, module `MemoryRepository`: pure functions saying
  what each operation does to the map (`Lookup`, `Created`, `Updated`,
  `Deleted`), the predicate `ListsStore` saying what `all` may return, and the
  class `TodoRepositoryForMemory`. The class keeps the map in a `store` field,
  and its methods update that field in place. Each method is proved against the
  pure function of the same operation. The class invariant `Valid()` says that
  every record is stored under its own id.
- `properties.dfy`, module `RepositoryProperties`: lemmas that relate several
  operations, and four client scenarios that use only the class's contracts.
  `CrudScenario` replays the create / find / all / update / delete test
  (`src/repositories/todo.rs:229-276`, `src/repositories.rs:167-214`).
  `TwoRecordListingScenario` and `TwoRecordUpdateDeleteScenario` cover two
  creates, a listing of both, an update of `completed` alone and a repeated
  delete. `IdCollisionScenario` shows a create after a delete replacing a
  record that is still stored.

Behaviour of the code that the model keeps as it is:

- Ids can be reused, and a create can replace a live record. The next id is
  derived from the number of stored records, not from the ids handed out so
  far, so ids are reused after a delete. The general condition is in the size
  clause of `Created`: the store grows by one unless the next id is already a
  stored key, in which case that record is replaced. For the case of one
  delete from a store holding the ids 1..n, `CreateAfterDeleteOverwrites` and
  `CreateAfterDeletingLastReusesId` show the replaced record and the reused id.
- The order of `all` is left open. The code returns `HashMap::values()`, whose
  order is unspecified. So `ListsStore` fixes the contents and not the order,
  and `ListingsArePermutations` shows that only the order is free.
- The in-memory backend only ever fails with `NotFound`. `RepositoryError` in
  `src/repositories/todo.rs` also has an `Unexpected` variant, but only the
  database backend builds it (`src/repositories/todo.rs:166`, `199`, `215`),
  and that backend is left out. The model's error type has `NotFound` only.
- Text is not validated on the way in. The handlers take plain `Json`
  payloads, and the repository checks nothing. The length rules are therefore
  predicates of their own. `ValidPayloadsKeepTextsValid` shows that payloads
  which pass them keep every stored text between 1 and 100 characters.

## Model

| member | source | states |
|---|---|---|
| `Todos.TruncateToI32` | src/repositories/todo.rs:89 | the `as i32` cast keeps the value of any length below 2^31 and otherwise agrees with it modulo 2^32 (two's complement) |
| `Todos.Merged` | src/repositories/todo.rs:110-117 | the record `update` stores carries the given id; each field the payload carries replaces the stored one, and each absent field keeps the stored value |
| `Todos.NewTodo` | src/repositories/todo.rs:52-59 | a fresh record carries the given id and text and is not completed |
| `Todos.CreateTodo.Valid` | src/repositories/todo.rs:30-35 | a create payload is valid if and only if its text is 1 to 100 characters long |
| `Todos.UpdateTodo.Valid` | src/repositories/todo.rs:44-50 | an update payload is valid if and only if its text is absent or 1 to 100 characters long; `completed` is unconstrained |
| `MemoryRepository.NextId` | src/repositories.rs:94 | the id `create` hands out is the number of stored records plus one while that number is below 2^31 - 1 |
| `MemoryRepository.Lookup` | src/repositories.rs:99-107 | `find` succeeds if and only if the id is stored, returning the stored record, and otherwise fails with `NotFound` of that id |
| `MemoryRepository.Created` | src/repositories.rs:92-98 | `create` returns a record with the next id, the payload's text and `completed` false; afterwards that id maps to exactly that record, no other key changes, and the store grows by one only if the id was not already taken (otherwise the old record is replaced) |
| `MemoryRepository.Updated` | src/repositories.rs:112-125 | on an absent id `update` fails with `NotFound(id)` and keeps the store; on a present id it stores and returns the merge of the payload over the stored record under the same id; the key set, the size and every other entry are unchanged |
| `MemoryRepository.Deleted` | src/repositories.rs:126-130 | on a present id `delete` succeeds and removes exactly that key, keeping every other entry; on an absent id it fails with `NotFound(id)` and keeps the store |
| `MemoryRepository.TodoRepositoryForMemory.constructor` | src/repositories/todo.rs:70-74 | a new repository has an empty store |
| `MemoryRepository.TodoRepositoryForMemory.Create` | src/repositories/todo.rs:87-93 | updates the store in place as `Created` says, returns the new record and keeps every record under its own id |
| `MemoryRepository.TodoRepositoryForMemory.Find` | src/repositories/todo.rs:94-102 | returns what `Lookup` gives for the current store, changing nothing |
| `MemoryRepository.TodoRepositoryForMemory.All` | src/repositories/todo.rs:103-106 | returns a listing of the store: every element is the record stored under its id, no id occurs twice, and every stored id occurs |
| `MemoryRepository.TodoRepositoryForMemory.Update` | src/repositories/todo.rs:107-120 | updates the store in place and returns the outcome as `Updated` says, keeping every record under its own id |
| `MemoryRepository.TodoRepositoryForMemory.Delete` | src/repositories/todo.rs:121-125 | updates the store in place and returns the outcome as `Deleted` says |
| `RepositoryProperties.FindAfterCreate` | src/repositories/todo.rs:233-245 | after `create`, `find` of the returned id yields the returned record, which is `Todo::new(id, text)` |
| `RepositoryProperties.OperationsKeepWellKeyed` | src/repositories/todo.rs:87-125 | `create`, `update` and `delete` keep every record stored under its own id |
| `RepositoryProperties.AbsentIdFails` | src/repositories.rs:99-130 | for an id that is not stored, `find`, `update` and `delete` each fail with `NotFound` of that id and leave the store unchanged |
| `RepositoryProperties.FindAfterUpdate` | src/repositories/todo.rs:251-270 | after a successful `update`, `find` returns the record `update` returned |
| `RepositoryProperties.EmptyUpdateChangesNothing` | src/repositories.rs:115-124 | an update that carries neither field leaves the store as it was and returns the stored record |
| `RepositoryProperties.UpdateIdempotent` | src/repositories/todo.rs:110-119 | repeating an update with the same payload leaves the store as the first one did and returns the same record |
| `RepositoryProperties.DeleteIsDestructive` | src/repositories/todo.rs:272-275 | after `delete`, `find` fails with `NotFound`, and a second `delete` fails with `NotFound` and leaves the store as the first left it |
| `RepositoryProperties.ListingHasStoreSize` | src/repositories.rs:108-111 | the ids of a listing of the store are exactly the stored keys, and its length is the store's size |
| `RepositoryProperties.ListingOfSingleRecord` | src/repositories/todo.rs:247-249 | on a store holding one record, `all` returns exactly that record |
| `RepositoryProperties.ListedRecord` | src/repositories/todo.rs:105 | every stored record occurs in a listing of the store |
| `RepositoryProperties.ListingsArePermutations` | src/repositories/todo.rs:103-106 | any two listings of the same store are permutations of each other, so only the order of `all` is unspecified |
| `RepositoryProperties.CreateKeepsDense` | src/repositories.rs:92-98 | on a store holding exactly the ids 1..n, `create` uses the fresh id n+1 and leaves the ids 1..n+1 |
| `RepositoryProperties.CreateAllKeepsDense` | src/repositories/todo.rs:87-93 | a run of creates with no delete between them adds one record each and keeps the ids 1..n dense |
| `RepositoryProperties.AllAfterCreates` | src/repositories.rs:174-187 | after N creates on a new repository, `all` returns N records with distinct ids in 1..N |
| `RepositoryProperties.CreateAfterDeleteOverwrites` | src/repositories/todo.rs:89-91 | after deleting any record but the one with the highest id from a store with ids 1..n, the next `create` gets id n, replaces the live record stored there, and the store ends one record smaller than before the delete |
| `RepositoryProperties.CreateAfterDeletingLastReusesId` | src/repositories.rs:94-96 | after deleting the record with the highest id n, the next `create` hands out n again |
| `RepositoryProperties.ValidPayloadsKeepTextsValid` | src/repositories/todo.rs:30-50 | if every stored text is 1 to 100 characters long, payloads that pass the length rules keep it so through `create` and `update`, and `delete` always does |
| `RepositoryProperties.ValidationBoundaries` | src/repositories.rs:35-55 | `CreateTodo.text` must be 1 to 100 characters long (empty and 101 rejected, 1 and 100 accepted); an `UpdateTodo` without text is valid with `completed` absent, true or false, and its text, when present, obeys the same bounds (empty and 101 rejected, 1 and 100 accepted) |

## Left out

- The database backend `TodoRepositoryForDb` (`src/repositories/todo.rs:128-220`; in `src/repositories.rs:133-161` it is unimplemented) is not modelled. Its behaviour lives in Postgres SQL, and its errors come from `sqlx`.
- `src/repositories/label.rs` is not modelled. It is a Postgres-only repository with no in-process logic.
- `src/main.rs` and `src/handlers.rs` are not modelled. They are routing, HTTP status codes, logging and server start-up.
- The `TodoRepository` trait is not modelled as an interface. The class's five methods are its in-memory instance.
- `Arc<RwLock<…>>` and `async` are not modelled. Each operation is one atomic step on the `store` field. Lock poisoning (the `unwrap` on the lock) is not modelled either.
- `TodoRepositoryForMemory.Create` and `TodoRepositoryForMemory.All` return their value directly rather than wrapped in a result. The source always returns `Ok` from both.
- The `anyhow` context chain around `NotFound`, the error's display text, the validator's messages and the serde derives are not modelled.
- The usize overflow of `store.len() + 1` is not modelled. A map keyed by `i32` holds at most 2^32 records, so the sum never reaches the usize limit.
- The lemmas about the id allocator assume fewer than 2^31 - 1 stored records. From that size on the cast wraps around: sizes 2^31 - 1 to 2^32 - 2 give a negative id, and the two largest sizes give 0 and 1; `TruncateToI32` and `NextId` still model that cast exactly.
