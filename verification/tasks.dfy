/** The task entity and the three array operations both screens build on:
    `filter(task => task.id !== id)` (Remove), the title/description rewrite
    `map` (Edit) and `find(task => task.id === id)` (Find). */
module Tasks {
  import opened Optional
  import JsText

  /** A task id as JavaScript compares it with `===`: a string (the client
      mints `Date.now().toString()`) never equals a number (what a server may
      send), and two values of the same kind are equal exactly when alike. */
  datatype TaskId = Text(text: string) | Number(value: int)

  datatype Task = Task(id: TaskId, title: string, description: string, completed: bool)

  /** The id the client mints for a new task at clock reading `now`
      (milliseconds since the epoch). */
  function ClientId(now: nat): (id: TaskId)
    ensures id.Text? && JsText.ParseDecimal(id.text) == now
    ensures |id.text| >= 1 && forall i :: 0 <= i < |id.text| ==> '0' <= id.text[i] <= '9'
    ensures id.text == "0" || id.text[0] != '0'
  {
    JsText.ParseDecimalInvertsDecimal(now);
    Text(JsText.Decimal(now))
  }

  /** Two client-minted ids collide exactly when they were minted in the same
      millisecond; nothing else keeps client ids apart. */
  lemma ClientIdsCollideIffSameMillisecond(a: nat, b: nat)
    ensures ClientId(a) == ClientId(b) <==> a == b
  {
    JsText.DecimalInjective(a, b);
  }

  /** The ids of a list, in list order. */
  function Ids(s: seq<Task>): (r: seq<TaskId>)
    ensures |r| == |s|
    ensures forall i :: 0 <= i < |s| ==> r[i] == s[i].id
  {
    if s == [] then [] else [s[0].id] + Ids(s[1..])
  }

  lemma IdsAppend(a: seq<Task>, b: seq<Task>)
    ensures Ids(a + b) == Ids(a) + Ids(b)
  {
  }

  /** No id occurs twice. */
  predicate Distinct(ids: seq<TaskId>) {
    forall i, j :: 0 <= i < j < |ids| ==> ids[i] != ids[j]
  }

  predicate UniqueIds(s: seq<Task>) {
    Distinct(Ids(s))
  }

  /** The active and completed lists together hold every id at most once: no
      id is repeated within a list, and no id is in both. */
  predicate Partitioned(active: seq<Task>, completed: seq<Task>) {
    && UniqueIds(active)
    && UniqueIds(completed)
    && forall x :: x in Ids(active) ==> x !in Ids(completed)
  }

  /** Appending a task keeps ids unique exactly when its id is new. */
  lemma UniqueSnoc(s: seq<Task>, t: Task)
    ensures UniqueIds(s + [t]) <==> UniqueIds(s) && t.id !in Ids(s)
  {
    var ids := Ids(s + [t]);
    assert ids == Ids(s) + [t.id];
    if UniqueIds(s) && t.id !in Ids(s) {
      forall i, j | 0 <= i < j < |ids|
        ensures ids[i] != ids[j]
      {
        if j == |s| {
          assert ids[i] == Ids(s)[i];
        } else {
          assert ids[i] == Ids(s)[i] && ids[j] == Ids(s)[j];
        }
      }
    }
    if UniqueIds(s + [t]) {
      forall k | 0 <= k < |s|
        ensures Ids(s)[k] != t.id
      {
        assert ids[k] == Ids(s)[k] && ids[|s|] == t.id;
      }
      forall i, j | 0 <= i < j < |s|
        ensures Ids(s)[i] != Ids(s)[j]
      {
        assert ids[i] == Ids(s)[i] && ids[j] == Ids(s)[j];
      }
    }
  }

  /** `s.filter(task => task.id !== id)`: every task with that id is gone,
      every other task stays, nothing new appears. */
  function Remove(s: seq<Task>, id: TaskId): (r: seq<Task>)
    ensures |r| <= |s|
    ensures forall x :: x in Ids(r) <==> x in Ids(s) && x != id
    ensures forall t :: t in r <==> t in s && t.id != id
  {
    if s == [] then []
    else if s[0].id == id then Remove(s[1..], id)
    else [s[0]] + Remove(s[1..], id)
  }

  /** Filtering distributes over concatenation; with the behaviour on a single
      task this pins down that the survivors keep their relative order. */
  lemma {:induction false} RemoveAppend(a: seq<Task>, b: seq<Task>, id: TaskId)
    ensures Remove(a + b, id) == Remove(a, id) + Remove(b, id)
    decreases |a|
  {
    if a == [] {
      assert a + b == b;
    } else {
      assert (a + b)[1..] == a[1..] + b;
      RemoveAppend(a[1..], b, id);
    }
  }

  /** Filtering changes a list exactly when the id is in it. */
  lemma {:induction false} RemoveIsIdentityIffAbsent(s: seq<Task>, id: TaskId)
    ensures Remove(s, id) == s <==> id !in Ids(s)
    decreases |s|
  {
    if s != [] {
      var tail := s[1..];
      RemoveIsIdentityIffAbsent(tail, id);
      assert Ids(s) == [s[0].id] + Ids(tail);
      if s[0].id != id {
        assert Remove(s, id) == [s[0]] + Remove(tail, id);
        assert ([s[0]] + Remove(tail, id))[1..] == Remove(tail, id);
        if Remove(tail, id) == tail {
          ConsTail(s);
        }
      }
    }
  }

  lemma ConsTail(s: seq<Task>)
    requires s != []
    ensures [s[0]] + s[1..] == s
  {
  }

  /** Filtering out a present id makes the list strictly shorter. */
  lemma {:induction false} RemoveShrinks(s: seq<Task>, id: TaskId)
    requires id in Ids(s)
    ensures |Remove(s, id)| < |s|
    decreases |s|
  {
    if s[0].id != id {
      assert Ids(s) == [s[0].id] + Ids(s[1..]);
      RemoveShrinks(s[1..], id);
    }
  }

  /** Filtering by the same id twice is filtering once. */
  lemma RemoveIdempotent(s: seq<Task>, id: TaskId)
    ensures Remove(Remove(s, id), id) == Remove(s, id)
  {
    RemoveIsIdentityIffAbsent(Remove(s, id), id);
  }

  /** Filters by two ids commute. */
  lemma {:induction false} RemoveCommutes(s: seq<Task>, a: TaskId, b: TaskId)
    ensures Remove(Remove(s, a), b) == Remove(Remove(s, b), a)
    decreases |s|
  {
    if s != [] {
      RemoveCommutes(s[1..], a, b);
    }
  }

  /** With unique ids, filtering out a present id takes out exactly the one
      task that has it, and keeps the tasks before and after it in place. */
  lemma RemoveUnique(s: seq<Task>, i: nat)
    requires UniqueIds(s)
    requires i < |s|
    ensures Remove(s, s[i].id) == s[..i] + s[i + 1..]
    ensures |Remove(s, s[i].id)| == |s| - 1
  {
    OnlyPositionOfId(s, i);
    RemoveSolePosition(s, i);
  }

  /** Filtering out the id of the task at `i`, when no other task carries it. */
  lemma RemoveSolePosition(s: seq<Task>, i: nat)
    requires i < |s|
    requires forall j :: 0 <= j < |s| && j != i ==> s[j].id != s[i].id
    ensures Remove(s, s[i].id) == s[..i] + s[i + 1..]
  {
    var id, a, b := s[i].id, s[..i], s[i + 1..];
    assert Remove(a, id) == a by {
      forall k | 0 <= k < |a|
        ensures a[k].id != id
      {
        assert a[k] == s[k];
      }
      RemoveNoCarrier(a, id);
    }
    assert Remove(b, id) == b by {
      forall k | 0 <= k < |b|
        ensures b[k].id != id
      {
        assert b[k] == s[i + 1 + k];
      }
      RemoveNoCarrier(b, id);
    }
    RemoveAround(s, i);
  }

  /** Filtering by the id of the task at `i` filters the tasks on either side
      of it and drops that task. */
  lemma RemoveAround(s: seq<Task>, i: nat)
    requires i < |s|
    ensures Remove(s, s[i].id) == Remove(s[..i], s[i].id) + Remove(s[i + 1..], s[i].id)
  {
    SplitAt(s, i);
    RemoveAroundTask(s[..i], s[i], s[i + 1..]);
  }

  lemma SplitAt(s: seq<Task>, i: nat)
    requires i < |s|
    ensures s == s[..i] + [s[i]] + s[i + 1..]
  {
  }

  lemma RemoveAroundTask(a: seq<Task>, t: Task, b: seq<Task>)
    ensures Remove(a + [t] + b, t.id) == Remove(a, t.id) + Remove(b, t.id)
  {
    RemoveAppend(a + [t], b, t.id);
    RemoveAppend(a, [t], t.id);
    RemoveOwnId(t);
  }

  lemma RemoveOwnId(t: Task)
    ensures Remove([t], t.id) == []
  {
    assert [t][1..] == [];
  }

  /** Filtering by an id no task carries keeps the list. */
  lemma RemoveNoCarrier(s: seq<Task>, id: TaskId)
    requires forall k :: 0 <= k < |s| ==> s[k].id != id
    ensures Remove(s, id) == s
  {
    forall k | 0 <= k < |s|
      ensures Ids(s)[k] != id
    {
    }
    RemoveIsIdentityIffAbsent(s, id);
  }

  /** Under unique ids, no other task shares the id of the task at `i`. */
  lemma OnlyPositionOfId(s: seq<Task>, i: nat)
    requires UniqueIds(s)
    requires i < |s|
    ensures forall j :: 0 <= j < |s| && j != i ==> s[j].id != s[i].id
  {
    forall j | 0 <= j < |s| && j != i
      ensures s[j].id != s[i].id
    {
      assert Ids(s)[j] == s[j].id && Ids(s)[i] == s[i].id;
    }
  }

  lemma DistinctCons(x: TaskId, ys: seq<TaskId>)
    ensures Distinct([x] + ys) <==> x !in ys && Distinct(ys)
  {
    var zs := [x] + ys;
    if x !in ys && Distinct(ys) {
      forall i, j | 0 <= i < j < |zs|
        ensures zs[i] != zs[j]
      {
        if i > 0 {
          assert zs[i] == ys[i - 1] && zs[j] == ys[j - 1];
        } else {
          assert zs[j] == ys[j - 1];
        }
      }
    }
    if Distinct(zs) {
      forall k | 0 <= k < |ys|
        ensures ys[k] != x
      {
        assert zs[0] == x && zs[k + 1] == ys[k];
      }
      forall i, j | 0 <= i < j < |ys|
        ensures ys[i] != ys[j]
      {
        assert ys[i] == zs[i + 1] && ys[j] == zs[j + 1];
      }
    }
  }

  /** Filtering never creates a duplicate. */
  lemma {:induction false} RemoveKeepsUniqueIds(s: seq<Task>, id: TaskId)
    requires UniqueIds(s)
    ensures UniqueIds(Remove(s, id))
    decreases |s|
  {
    if s != [] {
      assert s == [s[0]] + s[1..];
      assert Ids(s) == [s[0].id] + Ids(s[1..]);
      DistinctCons(s[0].id, Ids(s[1..]));
      RemoveKeepsUniqueIds(s[1..], id);
      if s[0].id != id {
        var r := Remove(s[1..], id);
        assert Ids([s[0]] + r) == [s[0].id] + Ids(r);
        DistinctCons(s[0].id, Ids(r));
      }
    }
  }

  /** The edit that `updateTask` applies: exactly the tasks carrying `id` get
      the new title and description, with their id and completion flag
      untouched, and every other task is left as it was. */
  predicate Rewrites(s: seq<Task>, r: seq<Task>, id: TaskId, title: string, description: string) {
    && |r| == |s|
    && forall i :: 0 <= i < |s| ==>
         r[i] == (if s[i].id == id then s[i].(title := title, description := description) else s[i])
  }

  /** `s.map(task => task.id === id ? {...task, title, description} : task)`. */
  function Edit(s: seq<Task>, id: TaskId, title: string, description: string): (r: seq<Task>)
    ensures Rewrites(s, r, id, title, description)
    ensures Ids(r) == Ids(s)
    ensures forall i :: 0 <= i < |s| ==> r[i].completed == s[i].completed
  {
    if s == [] then []
    else
      var head := if s[0].id == id then s[0].(title := title, description := description) else s[0];
      [head] + Edit(s[1..], id, title, description)
  }

  /** Editing with the same values a second time changes nothing more. */
  lemma EditIdempotent(s: seq<Task>, id: TaskId, title: string, description: string)
    ensures Edit(Edit(s, id, title, description), id, title, description)
         == Edit(s, id, title, description)
  {
    var once := Edit(s, id, title, description);
    var twice := Edit(once, id, title, description);
    assert forall i :: 0 <= i < |s| ==> twice[i] == once[i];
  }

  /** Editing an id no task carries leaves the list as it is. */
  lemma EditAbsentIsIdentity(s: seq<Task>, id: TaskId, title: string, description: string)
    requires id !in Ids(s)
    ensures Edit(s, id, title, description) == s
  {
    var r := Edit(s, id, title, description);
    forall i | 0 <= i < |s|
      ensures r[i] == s[i]
    {
      assert Ids(s)[i] == s[i].id;
    }
  }

  /** Deleting a task discards any edit made to it. */
  lemma {:induction false} RemoveAfterEdit(s: seq<Task>, id: TaskId, title: string, description: string)
    ensures Remove(Edit(s, id, title, description), id) == Remove(s, id)
    decreases |s|
  {
    if s != [] {
      RemoveAfterEdit(s[1..], id, title, description);
      assert Edit(s, id, title, description)[1..] == Edit(s[1..], id, title, description);
    }
  }

  /** `s.find(task => task.id === id)`: nothing exactly when no task has the
      id, otherwise the first task that has it. */
  function Find(s: seq<Task>, id: TaskId): (r: Option<Task>)
    ensures r.None? <==> id !in Ids(s)
    ensures r.Some? ==> exists i :: 0 <= i < |s| && s[i] == r.value && r.value.id == id
                                   && forall j :: 0 <= j < i ==> s[j].id != id
  {
    if s == [] then None
    else if s[0].id == id then Some(s[0])
    else
      var r := Find(s[1..], id);
      if r.Some? then
        var i :| 0 <= i < |s[1..]| && s[1..][i] == r.value && r.value.id == id
                 && forall j :: 0 <= j < i ==> s[1..][j].id != id;
        assert s[i + 1] == r.value;
        assert forall j :: 0 <= j < i + 1 ==> s[j].id != id by {
          forall j | 0 < j < i + 1 ensures s[j].id != id {
            assert s[j] == s[1..][j - 1];
          }
        }
        r
      else r
  }

  /** Under unique ids the task found is the one at the id's only position. */
  lemma FindUnique(s: seq<Task>, i: nat)
    requires UniqueIds(s)
    requires i < |s|
    ensures Find(s, s[i].id) == Some(s[i])
  {
    assert Ids(s)[i] == s[i].id;
  }

  /** Finding after an edit of the same id finds the edited task. */
  lemma {:induction false} FindAfterEdit(s: seq<Task>, id: TaskId, title: string, description: string)
    requires id in Ids(s)
    ensures Find(Edit(s, id, title, description), id)
         == Some(Find(s, id).value.(title := title, description := description))
    decreases |s|
  {
    var r := Edit(s, id, title, description);
    assert r[0] == (if s[0].id == id then s[0].(title := title, description := description) else s[0]);
    if s[0].id != id {
      assert Ids(s) == [s[0].id] + Ids(s[1..]);
      assert r[1..] == Edit(s[1..], id, title, description);
      FindAfterEdit(s[1..], id, title, description);
    }
  }

}
