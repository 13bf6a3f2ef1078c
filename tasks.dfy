/**
 * The vocabulary records and what the add, toggle and delete handlers do to
 * the list of them, as values.
 */
module Tasks {
  import opened Wrappers
  import opened JsText

  /** One vocabulary entry: the object literal the add handler pushes. */
  datatype Task = Task(word: string, meaning: string, example: string, level: int, isDone: bool)

  /** Some character of `s` is not whitespace, so that `s.trim()` is not empty. */
  predicate HasText(s: string) {
    exists k :: 0 <= k < |s| && !IsJsWhitespace(s[k])
  }

  /**
   * The record the add handler builds from the raw field values, or `None`
   * when it refuses them: every text field is trimmed, the entry is refused
   * exactly when the trimmed word or the trimmed meaning is empty, the level is
   * taken as it is, and the new entry is not done.
   */
  function NewTask(word: string, meaning: string, example: string, level: int): (r: Option<Task>)
    ensures r.Some? <==> HasText(word) && HasText(meaning)
    ensures r.Some? ==> r.value.word == Trim(word) != [] && r.value.meaning == Trim(meaning) != []
    ensures r.Some? ==> r.value.example == Trim(example)
    ensures r.Some? ==> r.value.level == level && !r.value.isDone
  {
    TrimEmptyIff(word);
    TrimEmptyIff(meaning);
    var w, m := Trim(word), Trim(meaning);
    if w == [] || m == [] then None
    else Some(Task(w, m, Trim(example), level, false))
  }

  /** The list after `tasks[index].isDone = !tasks[index].isDone`. */
  function Toggled(ts: seq<Task>, index: nat): (r: seq<Task>)
    requires index < |ts|
    ensures |r| == |ts|
    ensures r[index].isDone == !ts[index].isDone
    ensures r[index].(isDone := ts[index].isDone) == ts[index]
    ensures forall k :: 0 <= k < |ts| && k != index ==> r[k] == ts[k]
  {
    ts[index := ts[index].(isDone := !ts[index].isDone)]
  }

  /** Toggling the same entry twice gives back the list it started from. */
  lemma ToggledTwice(ts: seq<Task>, index: nat)
    requires index < |ts|
    ensures Toggled(Toggled(ts, index), index) == ts
  {
  }

  /** The list after `tasks.splice(index, 1)`. */
  function Spliced(ts: seq<Task>, index: nat): (r: seq<Task>)
    requires index < |ts|
    ensures |r| == |ts| - 1
    ensures forall k :: 0 <= k < index ==> r[k] == ts[k]
    ensures forall k :: index <= k < |r| ==> r[k] == ts[k + 1]
  {
    ts[..index] + ts[index + 1..]
  }

  /** Splicing removes exactly the one record at the index: it and the rest make up the old list. */
  lemma SplicedRemovesOne(ts: seq<Task>, index: nat)
    requires index < |ts|
    ensures multiset(Spliced(ts, index)) + multiset{ts[index]} == multiset(ts)
  {
    assert ts == ts[..index] + [ts[index]] + ts[index + 1..];
  }
}
