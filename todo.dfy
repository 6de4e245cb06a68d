/** The todo entity, the two request payloads with their text-length rules,
    and the repository's error vocabulary. */
module Todos {

  /** Rust's `i32`, the type of every todo id. */
  newtype i32 = x: int | -0x8000_0000 <= x < 0x8000_0000

  /** The conversion `n as i32` of an unsigned length: keep the low 32 bits
      and read them as a two's-complement number. */
  function TruncateToI32(n: nat): (r: i32)
    ensures n < 0x8000_0000 ==> r as int == n
    ensures (r as int) % 0x1_0000_0000 == n % 0x1_0000_0000
  {
    var low := n % 0x1_0000_0000;
    if low < 0x8000_0000 then low as i32 else (low - 0x1_0000_0000) as i32
  }

  datatype Option<T> = None | Some(value: T) {
    /** `Option::unwrap_or`. */
    function GetOr(default: T): T {
      match this
      case Some(v) => v
      case None => default
    }
  }

  /** A stored record. */
  datatype Todo = Todo(id: i32, text: string, completed: bool)

  /** `Todo::new`: a fresh record is never completed. */
  function NewTodo(id: i32, text: string): (t: Todo)
    ensures t.id == id && t.text == text && !t.completed
  {
    Todo(id, text, false)
  }

  /** Bounds of the `length` validation rule on every text field. */
  const MinTextLength: nat := 1
  const MaxTextLength: nat := 100

  /** The `length(min = 1)` and `length(max = 100)` rules; the length is
      counted in characters. */
  predicate ValidText(s: string) {
    MinTextLength <= |s| <= MaxTextLength
  }

  /** Payload of `create`. */
  datatype CreateTodo = CreateTodo(text: string) {
    predicate Valid(): (ok: bool)
      ensures ok <==> 1 <= |text| <= 100
    {
      ValidText(text)
    }
  }

  /** Payload of `update`: an absent field keeps the stored value.  The
      length rules apply to `text` only when it is present. */
  datatype UpdateTodo = UpdateTodo(text: Option<string>, completed: Option<bool>) {
    /** `completed` takes no part in validation. */
    predicate Valid(): (ok: bool)
      ensures ok <==> text.None? || 1 <= |text.value| <= 100
    {
      text.Some? ==> ValidText(text.value)
    }
  }

  /** The record `update` stores under `id`: every field the payload leaves
      out is taken from the stored record. */
  function Merged(stored: Todo, id: i32, payload: UpdateTodo): (t: Todo)
    ensures t.id == id
    ensures payload.text.Some? ==> t.text == payload.text.value
    ensures payload.text.None? ==> t.text == stored.text
    ensures payload.completed.Some? ==> t.completed == payload.completed.value
    ensures payload.completed.None? ==> t.completed == stored.completed
  {
    Todo(id, payload.text.GetOr(stored.text), payload.completed.GetOr(stored.completed))
  }

  /** `RepositoryError`. */
  datatype RepositoryError = NotFound(id: i32)

  /** The outcome of a repository operation that can fail. */
  datatype Result<T> = Ok(value: T) | Err(error: RepositoryError)
}
