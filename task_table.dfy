/** The abstract value of the remote store: an insertion-ordered table from task id to task,
    as a `LinkedHashMap<String, Task>` holds it, and what each operation does to it. */
module TaskTable {
  import opened Wrappers
  import opened Tasks

  /** `entries` is the key-to-task map; `order` lists its keys in insertion order. */
  datatype Table = Table(entries: map<string, Task>, order: seq<string>)

  ghost predicate Distinct(s: seq<string>) {
    forall i, j :: 0 <= i < j < |s| ==> s[i] != s[j]
  }

  /** The order lists every key exactly once, and every task is stored under its own id. */
  ghost predicate WellFormed(tb: Table) {
    && Distinct(tb.order)
    && (forall k :: k in tb.order ==> k in tb.entries)
    && (forall k :: k in tb.entries ==> k in tb.order)
    && (forall k :: k in tb.entries ==> tb.entries[k].id == k)
  }

  const Empty: Table := Table(map[], [])

  /** The point read: the task stored under `id`, if any. */
  function Lookup(tb: Table, id: string): Option<Task> {
    if id in tb.entries then Some(tb.entries[id]) else None
  }

  function ValuesOf(m: map<string, Task>, keys: seq<string>): seq<Task>
    requires forall k :: k in keys ==> k in m
  {
    seq(|keys|, i requires 0 <= i < |keys| => m[keys[i]])
  }

  /** The map's values in iteration (insertion) order. */
  function Values(tb: Table): seq<Task>
    requires WellFormed(tb)
  {
    ValuesOf(tb.entries, tb.order)
  }

  // ---------------------------------------------------------------------------
  // Sequence helpers

  lemma DistinctSnoc(s: seq<string>, x: string)
    requires Distinct(s) && x !in s
    ensures Distinct(s + [x])
  {
  }

  lemma DistinctInit(s: seq<string>)
    requires Distinct(s) && s != []
    ensures Distinct(s[..|s| - 1]) && s[|s| - 1] !in s[..|s| - 1]
  {
  }

  /** A duplicate-free key list has as many elements as the set of its keys. */
  lemma {:induction false} DistinctCardinality(s: seq<string>)
    requires Distinct(s)
    ensures |set x | x in s| == |s|
  {
    if s != [] {
      var init, last := s[..|s| - 1], s[|s| - 1];
      DistinctInit(s);
      DistinctCardinality(init);
      assert (set x | x in s) == (set x | x in init) + {last} by {
        assert s == init + [last];
      }
    }
  }

  lemma ValuesOfSnoc(m: map<string, Task>, keys: seq<string>, k: string)
    requires forall x :: x in keys ==> x in m
    requires k in m
    ensures ValuesOf(m, keys + [k]) == ValuesOf(m, keys) + [m[k]]
  {
  }

  // ---------------------------------------------------------------------------
  // Reads

  /** `getTasks` yields exactly the stored tasks, one per id, in key order. */
  lemma ValuesExact(tb: Table)
    requires WellFormed(tb)
    ensures |Values(tb)| == |tb.order| == |tb.entries|
    ensures forall i :: 0 <= i < |tb.order| ==>
      Values(tb)[i] == tb.entries[tb.order[i]] && Values(tb)[i].id == tb.order[i]
    ensures forall t :: t in Values(tb) <==> t in tb.entries.Values
  {
    DistinctCardinality(tb.order);
    assert tb.entries.Keys == set x | x in tb.order;
    var vs := Values(tb);
    forall t | t in tb.entries.Values
      ensures t in vs
    {
      var k :| k in tb.entries && tb.entries[k] == t;
      var i :| 0 <= i < |tb.order| && tb.order[i] == k;
      assert vs[i] == t;
    }
  }

  /** The point read and the full read agree: `id` maps to `t` exactly when `t` is among the
      listed tasks and carries that id. */
  lemma LookupInValues(tb: Table, id: string, t: Task)
    requires WellFormed(tb)
    ensures Lookup(tb, id) == Some(t) <==> t in Values(tb) && t.id == id
  {
    var vs := Values(tb);
    if Lookup(tb, id) == Some(t) {
      var i :| 0 <= i < |tb.order| && tb.order[i] == id;
      assert vs[i] == t;
    }
    if t in vs && t.id == id {
      var i :| 0 <= i < |vs| && vs[i] == t;
      assert tb.entries[tb.order[i]] == t;
    }
  }

  // ---------------------------------------------------------------------------
  // Upsert (`put`): an existing key keeps its position, a new key goes last

  function Put(tb: Table, t: Task): (r: Table)
    requires WellFormed(tb)
    ensures WellFormed(r)
    ensures Lookup(r, t.id) == Some(t)
    ensures forall id :: id != t.id ==> Lookup(r, id) == Lookup(tb, id)
  {
    var order := if t.id in tb.entries then tb.order else tb.order + [t.id];
    assert t.id !in tb.entries ==> Distinct(order) by {
      if t.id !in tb.entries { DistinctSnoc(tb.order, t.id); }
    }
    Table(tb.entries[t.id := t], order)
  }

  /** After an upsert the listed tasks are the old ones with `t` in the key's old position, or
      with `t` appended when the key is new. */
  lemma PutValues(tb: Table, t: Task)
    requires WellFormed(tb)
    ensures t.id !in tb.entries ==> Put(tb, t).order == tb.order + [t.id]
    ensures t.id !in tb.entries ==> Values(Put(tb, t)) == Values(tb) + [t]
    ensures forall i :: 0 <= i < |tb.order| && tb.order[i] == t.id ==>
      Put(tb, t).order == tb.order && Values(Put(tb, t)) == Values(tb)[i := t]
  {
  }

  /** Upserting the same task twice leaves the table as upserting it once. */
  lemma PutIdempotent(tb: Table, t: Task)
    requires WellFormed(tb)
    ensures Put(Put(tb, t), t) == Put(tb, t)
  {
  }

  // ---------------------------------------------------------------------------
  // Status transitions

  /** `completeTask(Task)`: the completed copy of `t`, upserted under `t.id`. */
  function Complete(tb: Table, t: Task): (r: Table)
    requires WellFormed(tb)
    ensures WellFormed(r)
    ensures r.entries.Keys == tb.entries.Keys + {t.id}
    ensures t.id in r.entries && r.entries[t.id].completed
    ensures r.entries[t.id].id == t.id && r.entries[t.id].title == t.title
    ensures r.entries[t.id].description == t.description
    ensures forall id :: id != t.id ==> Lookup(r, id) == Lookup(tb, id)
  {
    Put(tb, AsCompleted(t))
  }

  /** `activateTask(Task)`: the active copy of `t`, upserted under `t.id`. */
  function Activate(tb: Table, t: Task): (r: Table)
    requires WellFormed(tb)
    ensures WellFormed(r)
    ensures r.entries.Keys == tb.entries.Keys + {t.id}
    ensures t.id in r.entries && !r.entries[t.id].completed
    ensures r.entries[t.id].id == t.id && r.entries[t.id].title == t.title
    ensures r.entries[t.id].description == t.description
    ensures forall id :: id != t.id ==> Lookup(r, id) == Lookup(tb, id)
  {
    Put(tb, AsActive(t))
  }

  /** Completing twice, whether with the same argument or with the task the first call stored,
      gives the same table as completing once; likewise for activating. */
  lemma TransitionsIdempotent(tb: Table, t: Task)
    requires WellFormed(tb)
    ensures Complete(Complete(tb, t), t) == Complete(tb, t)
    ensures Complete(Complete(tb, t), Complete(tb, t).entries[t.id]) == Complete(tb, t)
    ensures Activate(Activate(tb, t), t) == Activate(tb, t)
    ensures Activate(Activate(tb, t), Activate(tb, t).entries[t.id]) == Activate(tb, t)
  {
    PutIdempotent(tb, AsCompleted(t));
    PutIdempotent(tb, AsActive(t));
  }

  // ---------------------------------------------------------------------------
  // Point removal (`remove`)

  /** `keys` without `id`, the others in their order. */
  function WithoutKey(keys: seq<string>, id: string): seq<string> {
    if keys == [] then []
    else
      var last := keys[|keys| - 1];
      WithoutKey(keys[..|keys| - 1], id) + (if last == id then [] else [last])
  }

  lemma {:induction false} WithoutKeyMembers(keys: seq<string>, id: string)
    ensures forall x :: x in WithoutKey(keys, id) <==> x in keys && x != id
  {
    if keys != [] {
      WithoutKeyMembers(keys[..|keys| - 1], id);
      assert keys == keys[..|keys| - 1] + [keys[|keys| - 1]];
    }
  }

  lemma {:induction false} WithoutKeyDistinct(keys: seq<string>, id: string)
    requires Distinct(keys)
    ensures Distinct(WithoutKey(keys, id))
  {
    if keys != [] {
      var init, last := keys[..|keys| - 1], keys[|keys| - 1];
      DistinctInit(keys);
      WithoutKeyDistinct(init, id);
      WithoutKeyMembers(init, id);
      if last != id { DistinctSnoc(WithoutKey(init, id), last); }
    }
  }

  lemma {:induction false} WithoutMissingKey(keys: seq<string>, id: string)
    requires id !in keys
    ensures WithoutKey(keys, id) == keys
  {
    if keys != [] {
      WithoutMissingKey(keys[..|keys| - 1], id);
      assert keys == keys[..|keys| - 1] + [keys[|keys| - 1]];
    }
  }

  /** Removing the key at position `i` of a duplicate-free list splices out that one position. */
  lemma {:induction false} WithoutKeyAt(keys: seq<string>, id: string, i: int)
    requires Distinct(keys) && 0 <= i < |keys| && keys[i] == id
    ensures WithoutKey(keys, id) == keys[..i] + keys[i + 1..]
  {
    var init, last := keys[..|keys| - 1], keys[|keys| - 1];
    DistinctInit(keys);
    if i == |keys| - 1 {
      WithoutMissingKey(init, id);
    } else {
      WithoutKeyAt(init, id, i);
      assert init[..i] + init[i + 1..] + [last] == keys[..i] + keys[i + 1..];
    }
  }

  function Delete(tb: Table, id: string): (r: Table)
    requires WellFormed(tb)
    ensures WellFormed(r)
    ensures Lookup(r, id) == None
    ensures forall k :: k != id ==> Lookup(r, k) == Lookup(tb, k)
  {
    WithoutKeyMembers(tb.order, id);
    WithoutKeyDistinct(tb.order, id);
    Table(tb.entries - {id}, WithoutKey(tb.order, id))
  }

  /** Deleting a missing id changes nothing. */
  lemma DeleteMissing(tb: Table, id: string)
    requires WellFormed(tb) && id !in tb.entries
    ensures Delete(tb, id) == tb
  {
    WithoutMissingKey(tb.order, id);
    assert tb.entries - {id} == tb.entries;
  }

  /** Deleting the id at position `i` removes exactly that position from the key order and from
      the listed tasks. */
  lemma DeleteAt(tb: Table, id: string, i: int)
    requires WellFormed(tb) && 0 <= i < |tb.order| && tb.order[i] == id
    ensures Delete(tb, id).order == tb.order[..i] + tb.order[i + 1..]
    ensures Values(Delete(tb, id)) == Values(tb)[..i] + Values(tb)[i + 1..]
  {
    WithoutKeyAt(tb.order, id, i);
    var r := Delete(tb, id);
    var vs, ws := Values(tb), Values(r);
    assert |ws| == |vs| - 1;
    forall j | 0 <= j < |ws|
      ensures ws[j] == (vs[..i] + vs[i + 1..])[j]
    {
      if j < i { assert r.order[j] == tb.order[j]; } else { assert r.order[j] == tb.order[j + 1]; }
    }
  }

  /** `deleteAllTasks` leaves nothing to list. */
  lemma DeleteAllEmpty()
    ensures WellFormed(Empty)
    ensures Values(Empty) == []
    ensures forall id :: Lookup(Empty, id) == None
  {
  }

  // ---------------------------------------------------------------------------
  // Bulk removal of completed tasks

  function ActiveEntries(m: map<string, Task>): map<string, Task> {
    map k | k in m && !m[k].completed :: m[k]
  }

  /** The keys of `keys` whose tasks in `m` are active, in their order. */
  function ActiveKeys(m: map<string, Task>, keys: seq<string>): seq<string> {
    if keys == [] then []
    else
      var last := keys[|keys| - 1];
      ActiveKeys(m, keys[..|keys| - 1]) + (if last in m && !m[last].completed then [last] else [])
  }

  /** The active tasks of a list, in their order. */
  function ActiveTasks(ts: seq<Task>): seq<Task> {
    if ts == [] then []
    else
      var last := ts[|ts| - 1];
      ActiveTasks(ts[..|ts| - 1]) + (if last.completed then [] else [last])
  }

  lemma {:induction false} ActiveKeysMembers(m: map<string, Task>, keys: seq<string>)
    ensures forall x :: x in ActiveKeys(m, keys) <==> x in keys && x in m && !m[x].completed
  {
    if keys != [] {
      ActiveKeysMembers(m, keys[..|keys| - 1]);
      assert keys == keys[..|keys| - 1] + [keys[|keys| - 1]];
    }
  }

  lemma {:induction false} ActiveKeysDistinct(m: map<string, Task>, keys: seq<string>)
    requires Distinct(keys)
    ensures Distinct(ActiveKeys(m, keys))
  {
    if keys != [] {
      var init, last := keys[..|keys| - 1], keys[|keys| - 1];
      DistinctInit(keys);
      ActiveKeysDistinct(m, init);
      ActiveKeysMembers(m, init);
      if last in m && !m[last].completed { DistinctSnoc(ActiveKeys(m, init), last); }
    }
  }

  /** Filtering a list whose keys are all active keeps all of it. */
  lemma {:induction false} ActiveKeysOfActive(m: map<string, Task>, keys: seq<string>)
    requires forall k :: k in keys ==> k in m && !m[k].completed
    ensures ActiveKeys(m, keys) == keys
  {
    if keys != [] {
      ActiveKeysOfActive(m, keys[..|keys| - 1]);
      assert keys == keys[..|keys| - 1] + [keys[|keys| - 1]];
    }
  }

  /** The entries left once the iteration has visited `seen`: completed ones among them removed. */
  function ClearedUpTo(m: map<string, Task>, seen: seq<string>): map<string, Task> {
    map k | k in m && !(k in seen && m[k].completed) :: m[k]
  }

  lemma CursorStep(kept: seq<string>, keys: seq<string>, j: int)
    requires 0 <= j < |keys|
    ensures (kept + keys[j..])[|kept|] == keys[j]
    ensures (kept + keys[j..])[..|kept|] + (kept + keys[j..])[|kept| + 1..] == kept + keys[j + 1..]
    ensures kept + keys[j..] == (kept + [keys[j]]) + keys[j + 1..]
  {
  }

  /** One iterator step of the clearing loop, whose live key order is `kept + keys[j..]` with
      `kept` the active keys already visited: the cursor sees `keys[j]`, still stored unchanged;
      unlinking it (completed) or stepping past it (active) re-establishes that shape for `j + 1`. */
  lemma ClearStep(m: map<string, Task>, keys: seq<string>, j: int)
    requires Distinct(keys) && 0 <= j < |keys| && keys[j] in m
    ensures var kept, k, order := ActiveKeys(m, keys[..j]), keys[j], ActiveKeys(m, keys[..j]) + keys[j..];
      && order[|kept|] == k
      && k in ClearedUpTo(m, keys[..j]) && ClearedUpTo(m, keys[..j])[k] == m[k]
      && (m[k].completed ==>
            && ActiveKeys(m, keys[..j + 1]) + keys[j + 1..] == order[..|kept|] + order[|kept| + 1..]
            && |ActiveKeys(m, keys[..j + 1])| == |kept|
            && ClearedUpTo(m, keys[..j + 1]) == ClearedUpTo(m, keys[..j]) - {k})
      && (!m[k].completed ==>
            && ActiveKeys(m, keys[..j + 1]) + keys[j + 1..] == order
            && |ActiveKeys(m, keys[..j + 1])| == |kept| + 1
            && ClearedUpTo(m, keys[..j + 1]) == ClearedUpTo(m, keys[..j]))
  {
    var kept, k := ActiveKeys(m, keys[..j]), keys[j];
    assert keys[..j + 1] == keys[..j] + [k];
    assert keys[..j + 1][..j] == keys[..j];
    assert k !in keys[..j];
    CursorStep(kept, keys, j);
  }

  /** When the cursor has run off the end, every key has been visited and the loop's state is
      exactly the cleared table. */
  lemma ClearDone(tb: Table, j: int)
    requires WellFormed(tb) && 0 <= j <= |tb.order|
    requires |ActiveKeys(tb.entries, tb.order[..j]) + tb.order[j..]| <= |ActiveKeys(tb.entries, tb.order[..j])|
    ensures Table(ClearedUpTo(tb.entries, tb.order[..j]), ActiveKeys(tb.entries, tb.order[..j]) + tb.order[j..])
      == ClearCompleted(tb)
  {
    assert j == |tb.order|;
    assert tb.order[..j] == tb.order;
    assert ClearedUpTo(tb.entries, tb.order) == ActiveEntries(tb.entries);
  }

  /** `clearCompletedTasks`: every completed entry removed, the rest kept in order. */
  function ClearCompleted(tb: Table): (r: Table)
    requires WellFormed(tb)
    ensures WellFormed(r)
    ensures forall k :: k in r.entries ==> !r.entries[k].completed
    ensures forall k :: k in tb.entries && !tb.entries[k].completed ==>
      k in r.entries && r.entries[k] == tb.entries[k]
    ensures r.entries.Keys <= tb.entries.Keys
  {
    ActiveKeysMembers(tb.entries, tb.order);
    ActiveKeysDistinct(tb.entries, tb.order);
    Table(ActiveEntries(tb.entries), ActiveKeys(tb.entries, tb.order))
  }

  lemma {:induction false} ActiveValuesOf(m: map<string, Task>, keys: seq<string>)
    requires forall k :: k in keys ==> k in m
    ensures forall k :: k in ActiveKeys(m, keys) ==> k in ActiveEntries(m)
    ensures ValuesOf(ActiveEntries(m), ActiveKeys(m, keys)) == ActiveTasks(ValuesOf(m, keys))
  {
    ActiveKeysMembers(m, keys);
    if keys != [] {
      var init, last := keys[..|keys| - 1], keys[|keys| - 1];
      ActiveValuesOf(m, init);
      ActiveKeysMembers(m, init);
      var vs := ValuesOf(m, keys);
      assert keys == init + [last];
      ValuesOfSnoc(m, init, last);
      assert vs[..|vs| - 1] == ValuesOf(m, init);
      if !m[last].completed {
        ValuesOfSnoc(ActiveEntries(m), ActiveKeys(m, init), last);
      }
    }
  }

  /** After clearing, the listed tasks are the old list's active tasks, unchanged and in their
      old relative order. */
  lemma ClearCompletedValues(tb: Table)
    requires WellFormed(tb)
    ensures Values(ClearCompleted(tb)) == ActiveTasks(Values(tb))
  {
    ActiveValuesOf(tb.entries, tb.order);
  }

  /** Clearing a second time changes nothing. */
  lemma ClearCompletedIdempotent(tb: Table)
    requires WellFormed(tb)
    ensures ClearCompleted(ClearCompleted(tb)) == ClearCompleted(tb)
  {
    var r := ClearCompleted(tb);
    ActiveKeysOfActive(r.entries, r.order);
    assert ActiveEntries(r.entries) == r.entries;
  }
}
