/** The task list of the ToDo component as a value: the record each task is,
    and the pure list transforms its handlers apply (filter by id, flip one
    flag, stable partition, clear every flag, find an index, swap
    neighbours), with what each of them guarantees. */
module Tasks {
  import opened Seqs
  import opened Text

  /** One to-do item. */
  datatype Task = Task(id: int, text: string, completed: bool)

  predicate Done(t: Task) { t.completed }
  predicate Pending(t: Task) { !t.completed }

  /** The six tasks the component starts with. */
  const Seed: seq<Task> := [
    Task(1, "Task 1", false), Task(2, "Task 2", false), Task(3, "Task 3", false),
    Task(4, "Task 4", false), Task(5, "Task 5", false), Task(6, "Task 6", false)
  ]

  /** The seed list has unique ids, non-blank texts and no completed task. */
  lemma SeedValid()
    ensures UniqueIds(Seed) && TextsNonBlank(Seed) && Completed(Seed) == []
  {
    SeedUniqueIds();
    SeedTexts();
    FilterNone(Seed, Done);
  }

  lemma SeedUniqueIds()
    ensures UniqueIds(Seed)
  {
    assert forall i :: 0 <= i < |Seed| ==> Seed[i].id == i + 1;
  }

  lemma SeedTexts()
    ensures TextsNonBlank(Seed)
  {
    assert !IsWhiteSpace('T');
    forall t | t in Seed ensures !IsBlank(t.text) {
      assert t.text[0] == 'T';
    }
  }

  /** The ids present in a list. */
  function Ids(s: seq<Task>): set<int> {
    set t | t in s :: t.id
  }

  /** No two slots hold a task with the same id. */
  predicate UniqueIds(s: seq<Task>) {
    forall i, j :: 0 <= i < j < |s| ==> s[i].id != s[j].id
  }

  /** Every task has a text that is not blank. */
  predicate TextsNonBlank(s: seq<Task>) {
    forall t :: t in s ==> !IsBlank(t.text)
  }

  /** Every incomplete task comes before every completed one. */
  predicate Partitioned(s: seq<Task>) {
    forall i, j :: 0 <= i < j < |s| && s[i].completed ==> s[j].completed
  }

  /** The completed tasks, in list order; its length is the completed counter. */
  function Completed(s: seq<Task>): (r: seq<Task>)
    ensures |r| <= |s|
    ensures forall i :: 0 <= i < |r| ==> r[i].completed
  {
    var r := Filter(s, Done);
    assert forall i :: 0 <= i < |r| ==> r[i] in r;
    r
  }

  /** The incomplete tasks, in list order. */
  function Incomplete(s: seq<Task>): (r: seq<Task>)
    ensures |r| <= |s|
    ensures forall i :: 0 <= i < |r| ==> !r[i].completed
  {
    var r := Filter(s, Pending);
    assert forall i :: 0 <= i < |r| ==> r[i] in r;
    r
  }

  /** The two groups hold exactly the list's completed and incomplete tasks. */
  lemma CompletedMembers(s: seq<Task>)
    ensures forall t :: t in Completed(s) <==> t in s && t.completed
    ensures forall t :: t in Incomplete(s) <==> t in s && !t.completed
  {
  }

  // ---------------------------------------------------------------------
  // Uniqueness of ids

  /** The ids of a concatenation are the ids of its parts. */
  lemma IdsAppend(a: seq<Task>, b: seq<Task>)
    ensures Ids(a + b) == Ids(a) + Ids(b)
  {
    assert forall t :: t in a + b <==> t in a || t in b;
  }

  /** A list with unique ids, headed by a task whose id is not among the rest. */
  lemma UniqueIdsCons(t: Task, s: seq<Task>)
    ensures UniqueIds([t] + s) <==> UniqueIds(s) && t.id !in Ids(s)
  {
    if UniqueIds([t] + s) {
      UniqueIdsConsTail(t, s);
    }
    if UniqueIds(s) && t.id !in Ids(s) {
      UniqueIdsConsBuild(t, s);
    }
  }

  lemma UniqueIdsConsTail(t: Task, s: seq<Task>)
    requires UniqueIds([t] + s)
    ensures UniqueIds(s) && t.id !in Ids(s)
  {
    var c := [t] + s;
    forall i, j | 0 <= i < j < |s| ensures s[i].id != s[j].id {
      assert s[i] == c[i + 1] && s[j] == c[j + 1];
    }
    forall j | 0 <= j < |s| ensures s[j].id != t.id {
      assert c[0] == t && c[j + 1] == s[j];
    }
  }

  lemma UniqueIdsConsBuild(t: Task, s: seq<Task>)
    requires UniqueIds(s) && t.id !in Ids(s)
    ensures UniqueIds([t] + s)
  {
    var c := [t] + s;
    forall i, j | 0 <= i < j < |c| ensures c[i].id != c[j].id {
      assert c[j] == s[j - 1];
      if i > 0 {
        assert c[i] == s[i - 1];
      } else {
        assert s[j - 1] in s;
      }
    }
  }

  /** A filter of a list with unique ids has unique ids. */
  lemma {:induction false} UniqueIdsFilter(s: seq<Task>, p: Task -> bool)
    requires UniqueIds(s)
    ensures UniqueIds(Filter(s, p))
  {
    if s != [] {
      assert s == [s[0]] + s[1..];
      UniqueIdsCons(s[0], s[1..]);
      UniqueIdsFilter(s[1..], p);
      if p(s[0]) {
        UniqueIdsCons(s[0], Filter(s[1..], p));
      }
    }
  }

  /** Two lists with unique ids and no shared id concatenate to a list with
      unique ids. */
  lemma {:induction false} UniqueIdsAppend(a: seq<Task>, b: seq<Task>)
    requires UniqueIds(a) && UniqueIds(b) && Ids(a) !! Ids(b)
    ensures UniqueIds(a + b)
  {
    if a != [] {
      assert a == [a[0]] + a[1..];
      UniqueIdsCons(a[0], a[1..]);
      IdsAppend([a[0]], a[1..]);
      UniqueIdsAppend(a[1..], b);
      assert a + b == [a[0]] + (a[1..] + b);
      IdsAppend(a[1..], b);
      UniqueIdsCons(a[0], a[1..] + b);
    }
  }

  /** Lists with the same members have the same ids, and one has
      non-blank texts when the other has. */
  lemma SameMembers(a: seq<Task>, b: seq<Task>)
    requires forall t :: t in a <==> t in b
    ensures Ids(a) == Ids(b)
    ensures TextsNonBlank(a) <==> TextsNonBlank(b)
  {
  }

  /** In a list with unique ids, an id picks out at most one task. */
  lemma UniqueIdsSameTask(s: seq<Task>, u: Task, v: Task)
    requires UniqueIds(s) && u in s && v in s && u.id == v.id
    ensures u == v
  {
    var i :| 0 <= i < |s| && s[i] == u;
    var j :| 0 <= j < |s| && s[j] == v;
    assert !(i < j) && !(j < i);
  }

  /** Lists that agree slot by slot on ids and texts agree on uniqueness
      of ids and on non-blank texts. */
  lemma SameIdsAndTexts(s: seq<Task>, r: seq<Task>)
    requires |r| == |s|
    requires forall i :: 0 <= i < |s| ==> r[i].id == s[i].id && r[i].text == s[i].text
    ensures Ids(r) == Ids(s)
    ensures UniqueIds(r) <==> UniqueIds(s)
    ensures TextsNonBlank(r) <==> TextsNonBlank(s)
  {
    forall x | x in Ids(r) ensures x in Ids(s) {
      var u :| u in r && u.id == x;
      var i :| 0 <= i < |r| && r[i] == u;
      assert s[i] in s;
    }
    forall x | x in Ids(s) ensures x in Ids(r) {
      var u :| u in s && u.id == x;
      var i :| 0 <= i < |s| && s[i] == u;
      assert r[i] in r;
    }
    if TextsNonBlank(s) {
      forall u | u in r ensures !IsBlank(u.text) {
        var i :| 0 <= i < |r| && r[i] == u;
        assert s[i] in s;
      }
    }
    if TextsNonBlank(r) {
      forall u | u in s ensures !IsBlank(u.text) {
        var i :| 0 <= i < |s| && s[i] == u;
        assert r[i] in r;
      }
    }
  }

  // ---------------------------------------------------------------------
  // findIndex

  /** `tasks.findIndex(task => task.id === id)`: the first slot holding
      `id`, or -1 when no task has it. */
  function IndexOf(s: seq<Task>, id: int): (k: int)
    ensures -1 <= k < |s|
    ensures k == -1 <==> id !in Ids(s)
    ensures 0 <= k ==> s[k].id == id
    ensures forall j :: 0 <= j < k ==> s[j].id != id
    ensures k == -1 ==> forall j :: 0 <= j < |s| ==> s[j].id != id
  {
    if s == [] then -1
    else if s[0].id == id then 0
    else
      var k := IndexOf(s[1..], id);
      assert forall u :: u in s ==> u == s[0] || u in s[1..];
      assert forall j :: 0 < j < |s| ==> s[j] == s[1..][j - 1];
      if k == -1 then -1 else k + 1
  }

  /** With unique ids, the slot holding `id` is the one `IndexOf` finds. */
  lemma IndexOfUnique(s: seq<Task>, id: int, k: nat)
    requires UniqueIds(s) && k < |s| && s[k].id == id
    ensures IndexOf(s, id) == k
  {
    assert s[k] in s;
  }

  // ---------------------------------------------------------------------
  // deleteTask: tasks.filter(task => task.id !== id)

  /** The test `task => task.id !== id`. */
  function OtherId(id: int): Task -> bool {
    (t: Task) => t.id != id
  }

  function WithoutId(s: seq<Task>, id: int): (r: seq<Task>)
    ensures id !in Ids(r)
    ensures forall t :: t in r <==> t in s && t.id != id
  {
    Filter(s, OtherId(id))
  }

  /** Deleting an absent id leaves the list as it was. */
  lemma DeleteAbsent(s: seq<Task>, id: int)
    requires id !in Ids(s)
    ensures WithoutId(s, id) == s
  {
    FilterAll(s, OtherId(id));
  }

  /** With unique ids, deleting a present id removes exactly its slot and
      keeps every other task in its relative order. */
  lemma DeletePresent(s: seq<Task>, id: int)
    requires UniqueIds(s) && id in Ids(s)
    ensures var k := IndexOf(s, id);
      WithoutId(s, id) == s[..k] + s[k + 1..] && |WithoutId(s, id)| == |s| - 1
  {
    DeleteAt(s, IndexOf(s, id), id);
  }

  lemma DeleteAt(s: seq<Task>, k: nat, id: int)
    requires UniqueIds(s) && k < |s| && s[k].id == id
    ensures WithoutId(s, id) == s[..k] + s[k + 1..]
  {
    var p := OtherId(id);
    var pre, post := s[..k], s[k + 1..];
    forall t | t in pre ensures p(t) {
      var j :| 0 <= j < |pre| && pre[j] == t;
      assert s[j] == t && s[j].id != s[k].id;
    }
    forall t | t in post ensures p(t) {
      var j :| 0 <= j < |post| && post[j] == t;
      assert s[k + 1 + j] == t && s[k].id != s[k + 1 + j].id;
    }
    assert s == pre + [s[k]] + post;
    FilterDropOne(pre, s[k], post, p);
  }

  // ---------------------------------------------------------------------
  // completeTask: flip the flag of the task with `id`

  /** `{ ...task, completed: !task.completed }`: the same task with its
      flag flipped. */
  function Flip(t: Task): Task {
    t.(completed := !t.completed)
  }

  /** `tasks.map(task => task.id === id ? {...task, completed: !task.completed} : task)`:
      the tasks holding `id` have their flag flipped, nothing else changes. */
  function Toggled(s: seq<Task>, id: int): (r: seq<Task>)
    ensures |r| == |s|
    ensures forall i :: 0 <= i < |s| ==>
      && r[i].id == s[i].id && r[i].text == s[i].text
      && r[i].completed == (if s[i].id == id then !s[i].completed else s[i].completed)
  {
    if s == [] then []
    else [if s[0].id == id then Flip(s[0]) else s[0]] + Toggled(s[1..], id)
  }

  /** Completing an id that no task holds changes no task. */
  lemma ToggleAbsent(s: seq<Task>, id: int)
    requires id !in Ids(s)
    ensures Toggled(s, id) == s
  {
    assert forall i :: 0 <= i < |s| ==> s[i] in s;
  }

  /** With unique ids, completing a present id flips exactly its slot, so
      the completed count moves by one in the direction of the flip. */
  lemma ToggleCount(s: seq<Task>, id: int)
    requires UniqueIds(s) && id in Ids(s)
    ensures var k := IndexOf(s, id);
      && Toggled(s, id) == s[k := Flip(s[k])]
      && |Completed(Toggled(s, id))| == |Completed(s)| + (if s[k].completed then -1 else 1)
  {
    var k := IndexOf(s, id);
    ToggledAt(s, id, k);
    FilterReplaceLength(s, k, Flip(s[k]), Done);
  }

  /** With unique ids, the flipped list differs from the input in the slot
      holding `id` only. */
  lemma ToggledAt(s: seq<Task>, id: int, k: nat)
    requires UniqueIds(s) && k < |s| && s[k].id == id
    ensures Toggled(s, id) == s[k := Flip(s[k])]
  {
    var r := Toggled(s, id);
    forall i | 0 <= i < |s| ensures r[i] == s[k := Flip(s[k])][i] {
      if i != k {
        assert s[i].id != s[k].id;
      }
    }
  }

  // ---------------------------------------------------------------------
  // reorderTasks: [...incompleteTasks, ...completedTasks]

  function Reorder(s: seq<Task>): (r: seq<Task>)
    ensures |r| == |s|
  {
    FilterSplitMultiset(s, Pending, Done);
    assert |multiset(Incomplete(s) + Completed(s))| == |multiset(s)|;
    Incomplete(s) + Completed(s)
  }

  /** The reordered list has every incomplete task before every completed one. */
  lemma ReorderPartitioned(s: seq<Task>)
    ensures Partitioned(Reorder(s))
  {
    var a, b := Incomplete(s), Completed(s);
    var r := Reorder(s);
    forall i | 0 <= i < |r| ensures r[i].completed <==> i >= |a| {
      if i < |a| {
        assert r[i] == a[i] && a[i] in a;
      } else {
        assert r[i] == b[i - |a|] && b[i - |a|] in b;
      }
    }
  }

  /** Each group keeps its relative order: the incomplete and the completed
      tasks of the reordered list are those of the input, in the same order. */
  lemma ReorderStable(s: seq<Task>)
    ensures Incomplete(Reorder(s)) == Incomplete(s)
    ensures Completed(Reorder(s)) == Completed(s)
  {
    var a, b := Incomplete(s), Completed(s);
    FilterAppend(a, b, Pending);
    FilterAppend(a, b, Done);
    FilterTwice(s, Pending);
    FilterTwice(s, Done);
    FilterNone(a, Done);
    FilterNone(b, Pending);
  }

  /** The reordered list is a permutation of the input. */
  lemma ReorderPermutation(s: seq<Task>)
    ensures multiset(Reorder(s)) == multiset(s)
  {
    FilterSplitMultiset(s, Pending, Done);
  }

  /** A partitioned list splits into its incomplete tasks followed by its
      completed ones. */
  lemma {:induction false} PartitionedSplit(s: seq<Task>)
    requires Partitioned(s)
    ensures s == Incomplete(s) + Completed(s)
  {
    if s != [] {
      assert Partitioned(s[1..]) by {
        assert forall i :: 0 <= i < |s| - 1 ==> s[1..][i] == s[i + 1];
      }
      PartitionedSplit(s[1..]);
      if s[0].completed {
        assert forall t :: t in s ==> t.completed by {
          forall t | t in s ensures t.completed {
            var j :| 0 <= j < |s| && s[j] == t;
            if j > 0 { assert s[0].completed; }
          }
        }
        FilterNone(s, Pending);
        FilterAll(s, Done);
      }
    }
  }

  /** The stable partition is unique: a partitioned list whose incomplete
      and completed tasks are those of `s`, in their order, is `Reorder(s)`. */
  lemma ReorderUnique(s: seq<Task>, r: seq<Task>)
    requires Partitioned(r)
    requires Incomplete(r) == Incomplete(s) && Completed(r) == Completed(s)
    ensures r == Reorder(s)
  {
    PartitionedSplit(r);
  }

  /** Reordering a list that is already partitioned changes nothing. */
  lemma ReorderPartitionedNoop(s: seq<Task>)
    requires Partitioned(s)
    ensures Reorder(s) == s
  {
    PartitionedSplit(s);
  }

  /** Reordering keeps ids unique and texts non-blank. */
  lemma ReorderKeepsInvariant(s: seq<Task>)
    requires UniqueIds(s) && TextsNonBlank(s)
    ensures UniqueIds(Reorder(s)) && TextsNonBlank(Reorder(s)) && Ids(Reorder(s)) == Ids(s)
  {
    var a, b := Incomplete(s), Completed(s);
    UniqueIdsFilter(s, Pending);
    UniqueIdsFilter(s, Done);
    forall x | x in Ids(a) ensures x !in Ids(b) {
      var u :| u in a && u.id == x;
      forall v | v in b ensures v.id != x {
        if v.id == x {
          UniqueIdsSameTask(s, u, v);
        }
      }
    }
    UniqueIdsAppend(a, b);
    ReorderPermutation(s);
    MultisetSameMembers(Reorder(s), s);
    SameMembers(Reorder(s), s);
  }

  /** Flipping one flag and then reordering keeps ids unique and texts
      non-blank, leaves the list partitioned, and keeps the completed tasks
      of the flipped list. */
  lemma CompleteKeepsInvariant(s: seq<Task>, id: int)
    requires UniqueIds(s) && TextsNonBlank(s)
    ensures var r := Reorder(Toggled(s, id));
      && UniqueIds(r) && TextsNonBlank(r) && Ids(r) == Ids(s)
      && Partitioned(r) && Completed(r) == Completed(Toggled(s, id))
  {
    var u := Toggled(s, id);
    SameIdsAndTexts(s, u);
    ReorderKeepsInvariant(u);
    ReorderStable(u);
    ReorderPartitioned(u);
  }

  // ---------------------------------------------------------------------
  // resetCmp: tasks.map(task => ({...task, completed: false}))

  function Cleared(s: seq<Task>): (r: seq<Task>)
    ensures |r| == |s|
    ensures forall i :: 0 <= i < |s| ==>
      r[i].id == s[i].id && r[i].text == s[i].text && !r[i].completed
  {
    if s == [] then [] else [s[0].(completed := false)] + Cleared(s[1..])
  }

  /** After a reset no task is completed, and the list is partitioned. */
  lemma ClearedNoneCompleted(s: seq<Task>)
    ensures Completed(Cleared(s)) == []
    ensures Partitioned(Cleared(s))
  {
    var r := Cleared(s);
    forall t | t in r ensures !Done(t) {
      var i :| 0 <= i < |r| && r[i] == t;
    }
    FilterNone(r, Done);
  }

  // ---------------------------------------------------------------------
  // moveUp / moveDown

  /** moveUp: the task holding `id` changes places with its predecessor,
      unless it is first or absent. */
  function MovedUp(s: seq<Task>, id: int): (r: seq<Task>)
    ensures |r| == |s| && multiset(r) == multiset(s)
    ensures IndexOf(s, id) <= 0 ==> r == s
    ensures IndexOf(s, id) > 0 ==>
      var k := IndexOf(s, id);
      && r[k - 1] == s[k] && r[k] == s[k - 1]
      && forall i :: 0 <= i < |s| && i != k - 1 && i != k ==> r[i] == s[i]
  {
    var k := IndexOf(s, id);
    if k > 0 then
      SwapAdjacentMultiset(s, k - 1);
      SwapAdjacent(s, k - 1)
    else
      s
  }

  /** moveDown, for an id that is present: the task holding `id` changes
      places with its successor, unless it is last. */
  function MovedDown(s: seq<Task>, id: int): (r: seq<Task>)
    requires id in Ids(s)
    ensures |r| == |s| && multiset(r) == multiset(s)
    ensures IndexOf(s, id) == |s| - 1 ==> r == s
    ensures IndexOf(s, id) < |s| - 1 ==>
      var k := IndexOf(s, id);
      && r[k] == s[k + 1] && r[k + 1] == s[k]
      && forall i :: 0 <= i < |s| && i != k && i != k + 1 ==> r[i] == s[i]
  {
    var k := IndexOf(s, id);
    if k < |s| - 1 then
      SwapAdjacentMultiset(s, k);
      SwapAdjacent(s, k)
    else
      s
  }

  /** A move keeps the multiset of tasks, ids unique, texts non-blank and
      the completed count. */
  lemma SwapKeepsInvariant(s: seq<Task>, k: nat)
    requires k + 1 < |s|
    requires UniqueIds(s) && TextsNonBlank(s)
    ensures var r := SwapAdjacent(s, k);
      && multiset(r) == multiset(s) && Ids(r) == Ids(s)
      && UniqueIds(r) && TextsNonBlank(r) && |Completed(r)| == |Completed(s)|
  {
    var r := SwapAdjacent(s, k);
    SwapKeepsInvariantIds(s, k);
    SwapAdjacentFilterLength(s, k, Done);
    SwapAdjacentMultiset(s, k);
    MultisetSameMembers(r, s);
    SameMembers(r, s);
  }

  /** moveUp keeps the multiset of tasks, ids unique, texts non-blank and
      the completed count. */
  lemma MoveUpKeepsInvariant(s: seq<Task>, id: int)
    requires UniqueIds(s) && TextsNonBlank(s)
    ensures var r := MovedUp(s, id);
      && multiset(r) == multiset(s) && |r| == |s| && Ids(r) == Ids(s)
      && UniqueIds(r) && TextsNonBlank(r) && |Completed(r)| == |Completed(s)|
  {
    var k := IndexOf(s, id);
    if k > 0 {
      SwapKeepsInvariant(s, k - 1);
    }
  }

  /** moveDown keeps the same facts as moveUp. */
  lemma MoveDownKeepsInvariant(s: seq<Task>, id: int)
    requires UniqueIds(s) && TextsNonBlank(s) && id in Ids(s)
    ensures var r := MovedDown(s, id);
      && multiset(r) == multiset(s) && |r| == |s| && Ids(r) == Ids(s)
      && UniqueIds(r) && TextsNonBlank(r) && |Completed(r)| == |Completed(s)|
  {
    var k := IndexOf(s, id);
    if k < |s| - 1 {
      SwapKeepsInvariant(s, k);
    }
  }

  /** With unique ids, moving a task down and then up restores the list,
      unless the task was last. Unique ids are needed here: after the swap
      the task sits one slot lower, and `findIndex` in moveUp would stop at
      an earlier task holding the same id if there were one. */
  lemma MoveDownThenUp(s: seq<Task>, id: int)
    requires UniqueIds(s) && id in Ids(s) && IndexOf(s, id) < |s| - 1
    ensures MovedUp(MovedDown(s, id), id) == s
  {
    var k := IndexOf(s, id);
    var r := SwapAdjacent(s, k);
    SwapKeepsInvariantIds(s, k);
    IndexOfUnique(r, id, k + 1);
    SwapAdjacentTwice(s, k);
  }

  /** Moving a task up and then down restores the list, unless the task
      was first. No uniqueness is needed: the moved task lands in front of
      every other slot that could hold its id, so moveDown finds it. */
  lemma MoveUpThenDown(s: seq<Task>, id: int)
    requires IndexOf(s, id) > 0
    ensures id in Ids(MovedUp(s, id))
    ensures MovedDown(MovedUp(s, id), id) == s
  {
    var k := IndexOf(s, id);
    var r := SwapAdjacent(s, k - 1);
    assert r[k - 1] in r;
    assert forall j :: 0 <= j < k - 1 ==> r[j] == s[j];
    assert IndexOf(r, id) == k - 1;
    SwapAdjacentTwice(s, k - 1);
  }

  /** Uniqueness of ids survives a swap (the part of SwapKeepsInvariant
      that does not need texts). */
  lemma SwapKeepsInvariantIds(s: seq<Task>, k: nat)
    requires k + 1 < |s| && UniqueIds(s)
    ensures UniqueIds(SwapAdjacent(s, k)) && Ids(SwapAdjacent(s, k)) == Ids(s)
  {
    var r := SwapAdjacent(s, k);
    SwapAdjacentMultiset(s, k);
    MultisetSameMembers(r, s);
    SameMembers(r, s);
    forall i, j | 0 <= i < j < |r| ensures r[i].id != r[j].id {
      var i' := if i == k then k + 1 else if i == k + 1 then k else i;
      var j' := if j == k then k + 1 else if j == k + 1 then k else j;
      assert r[i] == s[i'] && r[j] == s[j'] && i' != j';
    }
  }

  /** Moving the first task up is a no-op, so moving it down afterwards
      does not restore the list. */
  lemma MoveUpThenDownAtTop(s: seq<Task>, id: int)
    requires UniqueIds(s) && |s| >= 2 && s[0].id == id
    ensures MovedDown(MovedUp(s, id), id) != s
  {
    assert s[0] in s;
    assert MovedUp(s, id) == s;
    assert MovedDown(s, id)[0] == s[1];
  }

  /** Moving the last task down is a no-op, so moving it up afterwards
      swaps it with its predecessor and does not restore the list. */
  lemma MoveDownThenUpAtBottom(s: seq<Task>, id: int)
    requires UniqueIds(s) && |s| >= 2 && s[|s| - 1].id == id
    ensures id in Ids(s)
    ensures MovedUp(MovedDown(s, id), id) != s
  {
    var n := |s|;
    assert s[n - 1] in s;
    IndexOfUnique(s, id, n - 1);
    assert MovedDown(s, id) == s;
    assert MovedUp(s, id)[n - 1] == s[n - 2];
  }

  // ---------------------------------------------------------------------
  // Worked examples

  /** Completing the middle one of three incomplete tasks sends it to the
      end, and one task is then completed. */
  lemma CompleteMiddleOfThree(a: Task, b: Task, c: Task)
    requires !a.completed && !b.completed && !c.completed
    requires UniqueIds([a, b, c])
    ensures Reorder(Toggled([a, b, c], b.id)) == [a, c, Flip(b)]
    ensures |Completed(Reorder(Toggled([a, b, c], b.id)))| == 1
  {
    ToggleMiddleOfThree(a, b, c);
    var u := [a, Flip(b), c];
    assert u[0] == a && u[1..] == [Flip(b), c];
    assert [Flip(b), c][0] == Flip(b) && [Flip(b), c][1..] == [c];
    assert [c][0] == c && [c][1..] == [];
    assert Filter([c], Pending) == [c] && Filter([c], Done) == [];
    assert Filter([Flip(b), c], Pending) == [c];
    assert Filter([Flip(b), c], Done) == [Flip(b)];
    assert Incomplete(u) == [a, c];
    assert Completed(u) == [Flip(b)];
    ReorderStable(u);
  }

  /** In a list of three distinct ids, toggling the middle id flips the
      middle task only. */
  lemma ToggleMiddleOfThree(a: Task, b: Task, c: Task)
    requires UniqueIds([a, b, c])
    ensures Toggled([a, b, c], b.id) == [a, Flip(b), c]
  {
    assert [a, b, c][0].id != [a, b, c][1].id && [a, b, c][1].id != [a, b, c][2].id;
    var u := Toggled([a, b, c], b.id);
    assert u[0] == a && u[1] == Flip(b) && u[2] == c;
  }

  /** With two tasks, moving the second up swaps them and moving it down
      again swaps them back. */
  lemma MoveUpThenDownOfTwo(a: Task, b: Task)
    requires a.id != b.id
    ensures MovedUp([a, b], b.id) == [b, a]
    ensures b.id in Ids([b, a]) && MovedDown([b, a], b.id) == [a, b]
  {
    assert IndexOf([a, b], b.id) == 1 by { assert [a, b][1..] == [b]; }
    assert b in [b, a];
  }
}
