/**
 * The page's state and its event handlers: the module-level `tasks` array and
 * the add, toggle, delete, generate and restore handlers that read and
 * replace it.
 */
module App {
  import opened Wrappers
  import opened JsText
  import opened Tasks
  import Base64
  import opened KanaCodec
  import opened Spell

  class TaskList {
    /** The module-level `tasks` array. */
    var tasks: seq<Task>
    /** The list `saveTasks` last wrote to the store under the key "tasks". */
    ghost var saved: seq<Task>

    /** `let tasks = []`, before anything is stored. */
    constructor ()
      ensures tasks == [] && saved == []
    {
      tasks := [];
      saved := [];
    }

    /**
     * The add handler. `added` is false where the handler shows its alert and
     * returns; the list then stays as it was and nothing is saved. Otherwise
     * exactly one new record is pushed at the end and the list is saved.
     */
    method Add(word: string, meaning: string, example: string, level: int) returns (added: bool)
      modifies this
      ensures added == NewTask(word, meaning, example, level).Some?
      ensures added ==> tasks == old(tasks) + [NewTask(word, meaning, example, level).value] && saved == tasks
      ensures !added ==> tasks == old(tasks) && saved == old(saved)
    {
      var task := NewTask(word, meaning, example, level);
      added := task.Some?;
      if added {
        tasks := tasks + [task.value];
        saved := tasks;
      }
    }

    /** `toggleDone(index)`: flips the done flag of one record and saves. */
    method ToggleDone(index: nat)
      requires index < |tasks|
      modifies this
      ensures tasks == Toggled(old(tasks), index) && saved == tasks
    {
      tasks := tasks[index := tasks[index].(isDone := !tasks[index].isDone)];
      saved := tasks;
    }

    /**
     * `deleteTask(index)`: `confirmed` is the answer to the confirmation
     * dialog. Only when it is true is the record removed and the list saved.
     */
    method DeleteTask(index: nat, confirmed: bool)
      requires index < |tasks|
      modifies this
      ensures confirmed ==> tasks == Spliced(old(tasks), index) && saved == tasks
      ensures !confirmed ==> tasks == old(tasks) && saved == old(saved)
    {
      if confirmed {
        tasks := tasks[..index] + tasks[index + 1..];
        saved := tasks;
      }
    }

    /** The generate handler: the spell it writes to the output field, the list untouched. */
    method GenerateSpell(p: Platform) returns (spell: string)
      ensures spell == Generate(p, tasks)
      ensures forall k :: 0 <= k < |spell| ==> spell[k] in HiraMap
      ensures ToBase64(spell) == Base64.Chars(Base64.Sextets(Payload(p, tasks)))
    {
      var json := p.stringify(tasks);
      var base64 := Base64.Encode(p.utf8Encode(json));
      spell := Base64ToHiragana(base64);
      GenerateCarriesUnpadded(p, tasks);
    }

    /**
     * The restore handler. The list is replaced wholesale, and saved, only
     * when every step succeeds and the parsed value is an array; on every
     * failure path the list and the store stay exactly as they were.
     */
    method RestoreSpell(p: Platform, input: string) returns (restored: bool)
      modifies this
      ensures restored <==> Restore(p, input).Some?
      ensures restored ==> tasks == Restore(p, input).value && saved == tasks
      ensures !restored ==> tasks == old(tasks) && saved == old(saved)
    {
      var hira := Trim(input);
      var base64 := HiraganaToBase64(hira);
      var bytes := Base64.ForgivingDecode(base64);
      if bytes.None? {
        return false;
      }
      var json := p.utf8Decode(bytes.value);
      if json.None? {
        return false;
      }
      var parsed := p.parse(json.value);
      if parsed.None? || !parsed.value.JsonArray? {
        return false;
      }
      tasks := parsed.value.elements;
      saved := tasks;
      restored := true;
    }
  }

  /** Generating a spell from the list and restoring it leaves the list as it was, and saves it. */
  method SpellRoundTrip(list: TaskList, p: Platform)
    requires Faithful(p)
    modifies list
    ensures list.tasks == old(list.tasks) && list.saved == list.tasks
  {
    var spell := list.GenerateSpell(p);
    RestoreGenerate(p, list.tasks);
    var restored := list.RestoreSpell(p, spell);
    assert restored;
  }
}
