/** The indexed binary min-heap of messages: an array kept in heap order under
    `Less`, each message's `index` pointing back at its slot, and an id map
    beside it. The sift loops of Go's `container/heap` (`up`, `down`, and the
    bodies of `heap.Push`, `heap.Pop` and `heap.Remove`) are written out over
    the heap's `Len`/`Less`/`Swap`/`Push`/`Pop` hooks. */
module MessageHeaps {
  import opened Messages

  /** The two ways an operation of the heap can fail. */
  datatype HeapError = IDAlreadyInUse | NotInHeap

  datatype Result<R> = Ok(value: R) | Err(error: HeapError)

  /** The parent slot `(j - 1) / 2` that `container/heap` computes. Go's
      division truncates toward zero, so the root is its own parent. */
  function Parent(j: nat): (p: nat)
    ensures p <= j && (p == j <==> j == 0)
    ensures j > 0 ==> j == 2 * p + 1 || j == 2 * p + 2
  {
    if j == 0 then 0 else (j - 1) / 2
  }

  /** The heap property on the slots `[0, n)`: no message is less than its
      parent. */
  ghost predicate HeapOrdered<T>(a: seq<Message<T>>, n: nat)
    requires n <= |a|
  {
    forall k :: 0 < k < n ==> !a[k].Less(a[Parent(k)])
  }

  /** No child of slot `i` within `[0, n)` is less than `x`. */
  ghost predicate ChildrenNotLess<T>(a: seq<Message<T>>, n: nat, i: nat, x: Message<T>)
    requires n <= |a|
  {
    && (2 * i + 1 < n ==> !a[2 * i + 1].Less(x))
    && (2 * i + 2 < n ==> !a[2 * i + 2].Less(x))
  }

  /** The state `up` works on, at slot `j`: heap order holds except perhaps
      between `j` and its parent, and `j`'s parent is no greater than `j`'s
      children. */
  ghost predicate HeapExceptUp<T>(a: seq<Message<T>>, n: nat, j: nat)
    requires j < n <= |a|
  {
    && (forall k :: 0 < k < n && k != j ==> !a[k].Less(a[Parent(k)]))
    && (0 < j ==> ChildrenNotLess(a, n, j, a[Parent(j)]))
  }

  /** The state `down` works on, at slot `i` after starting at `i0`: heap
      order holds except perhaps between `i` and its children, and between
      `i` and its parent while nothing has moved yet; `i`'s parent is no
      greater than `i`'s children. */
  ghost predicate HeapExceptDown<T>(a: seq<Message<T>>, n: nat, i: nat, i0: nat)
    requires i <= n <= |a|
  {
    && (forall k :: 0 < k < n && Parent(k) != i && k != i ==> !a[k].Less(a[Parent(k)]))
    && (i0 < i < n ==> !a[i].Less(a[Parent(i)]))
    && (0 < i ==> ChildrenNotLess(a, n, i, a[Parent(i)]))
  }

  /** The id map holds exactly the ids of the stored messages, each mapped to
      the message that carries it. */
  ghost predicate Keyed<T>(byID: map<string, Message<T>>, a: seq<Message<T>>) {
    && (forall id :: id in byID ==> byID[id].id == id && byID[id] in a)
    && (forall m :: m in a ==> m.id in byID && byID[m.id] == m)
  }

  /** `a` with slots `i` and `j` exchanged. */
  function Swapped<T>(a: seq<Message<T>>, i: nat, j: nat): (b: seq<Message<T>>)
    requires i < |a| && j < |a|
    ensures |b| == |a| && b[i] == a[j] && b[j] == a[i]
    ensures forall k :: 0 <= k < |a| && k != i && k != j ==> b[k] == a[k]
    ensures multiset(b) == multiset(a)
  {
    a[i := a[j]][j := a[i]]
  }

  /** By induction along the parent chain from slot `k` to the root, no slot
      of a heap-ordered array is less than the root. */
  lemma {:induction false} RootBelow<T>(a: seq<Message<T>>, n: nat, k: nat)
    requires n <= |a| && HeapOrdered(a, n) && k < n
    ensures !a[k].Less(a[0])
    decreases k
  {
    if k > 0 {
      RootBelow(a, n, Parent(k));
    }
  }

  /** No message in a heap-ordered array is less than its root. */
  lemma HeapRootIsMin<T>(a: seq<Message<T>>, n: nat)
    requires 0 < n <= |a| && HeapOrdered(a, n)
    ensures forall k :: 0 <= k < n ==> !a[k].Less(a[0])
  {
    forall k | 0 <= k < n
      ensures !a[k].Less(a[0])
    {
      RootBelow(a, n, k);
    }
  }

  /** One round of `up`: exchanging a message with its parent, when it is
      less than the parent, moves the gap in the heap order up to the
      parent. */
  lemma UpStep<T>(a: seq<Message<T>>, n: nat, j: nat)
    requires 0 < j < n <= |a| && HeapExceptUp(a, n, j)
    requires a[j].Less(a[Parent(j)])
    ensures HeapExceptUp(Swapped(a, Parent(j), j), n, Parent(j))
  {
    var p := Parent(j);
    var b := Swapped(a, p, j);
    LessAsymmetric(a[j], a[p]);
    forall k | 0 < k < n && k != p
      ensures !b[k].Less(b[Parent(k)])
    {
      if k != j && Parent(k) == p && b[k].Less(b[p]) {
        LessTransitive(a[k], a[j], a[p]);
      }
    }
    if 0 < p {
      var q := Parent(p);
      assert !a[p].Less(a[q]);
      forall c | c == 2 * p + 1 || c == 2 * p + 2
        ensures c < n ==> !b[c].Less(b[q])
      {
        if c < n && c != j && b[c].Less(b[q]) {
          assert Parent(c) == p;
          LessTransitive(a[c], a[q], a[p]);
        }
      }
    }
  }

  /** `j` is the child of `i` within `[0, n)` that `down` picks: no child of
      `i` is less than it. */
  ghost predicate LeastChild<T>(a: seq<Message<T>>, n: nat, i: nat, j: nat)
    requires n <= |a|
  {
    0 < j < n && Parent(j) == i && ChildrenNotLess(a, n, i, a[j])
  }

  /** `down`'s choice of child: the left one, unless the right one exists and
      is less than it. */
  lemma ChildChoice<T>(a: seq<Message<T>>, n: nat, i: nat, j: nat)
    requires n <= |a| && 2 * i + 1 < n
    requires j == 2 * i + 1 || j == 2 * i + 2
    requires j == 2 * i + 2 <==> 2 * i + 2 < n && a[2 * i + 2].Less(a[2 * i + 1])
    ensures LeastChild(a, n, i, j)
  {
    LessIrreflexive(a[j]);
    if 2 * i + 2 < n {
      LessAsymmetric(a[2 * i + 2], a[2 * i + 1]);
    }
  }

  /** One round of `down`: exchanging a message with its least child, when
      that child is less than it, moves the gap in the heap order down to
      that child. */
  lemma DownStep<T>(a: seq<Message<T>>, n: nat, i: nat, j: nat, i0: nat)
    requires n <= |a| && i0 <= i < n
    requires HeapExceptDown(a, n, i, i0)
    requires LeastChild(a, n, i, j) && a[j].Less(a[i])
    ensures HeapExceptDown(Swapped(a, i, j), n, j, i0)
  {
    var b := Swapped(a, i, j);
    LessAsymmetric(a[j], a[i]);
    forall k | 0 < k < n && Parent(k) != j && k != j
      ensures !b[k].Less(b[Parent(k)])
    {
    }
    forall c | c == 2 * j + 1 || c == 2 * j + 2
      ensures c < n ==> !b[c].Less(b[Parent(j)])
    {
      if c < n {
        assert Parent(c) == j;
      }
    }
  }

  /** When the least child of `i` is not less than `i`, no child is. */
  lemma NoChildLess<T>(a: seq<Message<T>>, n: nat, i: nat, j: nat)
    requires n <= |a| && i < n && LeastChild(a, n, i, j) && !a[j].Less(a[i])
    ensures ChildrenNotLess(a, n, i, a[i])
  {
  }

  /** Where `down` stops, at a slot no child of which is less than it, heap
      order holds everywhere except perhaps above the start slot `i0`, and
      everywhere once the start slot's message has moved. */
  lemma DownDone<T>(a: seq<Message<T>>, n: nat, i: nat, i0: nat)
    requires i0 <= i <= n <= |a| && HeapExceptDown(a, n, i, i0)
    requires i < n ==> ChildrenNotLess(a, n, i, a[i])
    ensures forall k :: 0 < k < n && k != i0 ==> !a[k].Less(a[Parent(k)])
    ensures i0 < i ==> HeapOrdered(a, n)
  {
  }

  /** `heap.Remove` moves the last slot `n` into slot `i`: `[0, n)` is then in
      the state `down` starts from, and, with the message at `i` left where
      it is, the state `up` starts from. */
  lemma RemoveReady<T>(a: seq<Message<T>>, n: nat, i: nat)
    requires i <= n < |a| && HeapOrdered(a, n + 1)
    ensures HeapExceptDown(Swapped(a, i, n), n, i, i)
  {
    var b := Swapped(a, i, n);
    if 0 < i {
      var q := Parent(i);
      assert !a[i].Less(a[q]);
      forall c | c == 2 * i + 1 || c == 2 * i + 2
        ensures c < n ==> !b[c].Less(b[q])
      {
        if c < n && b[c].Less(b[q]) {
          assert Parent(c) == i;
          LessTransitive(a[c], a[q], a[i]);
        }
      }
    }
  }

  /** `b` holds the messages of `a`, perhaps in another order within the
      first `n` slots, and the same ones from slot `n` on. */
  ghost predicate Rearranged<T>(a: seq<Message<T>>, b: seq<Message<T>>, n: nat) {
    && |b| == |a| && multiset(b) == multiset(a)
    && forall k :: n <= k < |a| ==> b[k] == a[k]
  }

  /** Exchanging two slots below `n` keeps the messages rearranged. */
  lemma SwapRearranges<T>(a0: seq<Message<T>>, a: seq<Message<T>>, n: nat, i: nat, j: nat)
    requires Rearranged(a0, a, n) && i < n && j < n && n <= |a|
    ensures Rearranged(a0, Swapped(a, i, j), n) && a[i] in a0 && a[j] in a0
  {
    assert a[i] in multiset(a0) && a[j] in multiset(a0);
  }

  /** Exchanging slots keeps the id map exact. */
  lemma KeyedPermutation<T>(byID: map<string, Message<T>>, a: seq<Message<T>>, b: seq<Message<T>>)
    requires Keyed(byID, a) && multiset(a) == multiset(b)
    ensures Keyed(byID, b)
  {
    forall m | m in b
      ensures m in a
    {
      assert m in multiset(b);
    }
    forall id | id in byID
      ensures byID[id] in b
    {
      assert byID[id] in multiset(a);
    }
  }

  /** The id map is one-to-one onto the stored messages: its keys are exactly
      their ids, and no two stored messages share an id. */
  lemma KeyedOneToOne<T>(byID: map<string, Message<T>>, a: seq<Message<T>>)
    requires Keyed(byID, a)
    ensures byID.Keys == set m | m in a :: m.id
    ensures forall i, j :: 0 <= i < |a| && 0 <= j < |a| && a[i].id == a[j].id ==> a[i] == a[j]
  {
    forall id | id in byID
      ensures id in set m | m in a :: m.id
    {
      assert byID[id] in a && byID[id].id == id;
    }
  }

  /** Messages with pairwise distinct ids carry as many ids as there are
      messages. */
  lemma {:induction false} DistinctIDsCount<T>(a: seq<Message<T>>)
    requires forall i, j :: 0 <= i < j < |a| ==> a[i].id != a[j].id
    ensures |set m | m in a :: m.id| == |a|
    decreases |a|
  {
    if |a| > 0 {
      var b := a[..|a| - 1];
      var last := a[|a| - 1];
      DistinctIDsCount(b);
      assert (set m | m in a :: m.id) == (set m | m in b :: m.id) + {last.id};
      assert last.id !in (set m | m in b :: m.id);
    }
  }

  /** The heap: `messages` in heap order under `Less`, and `byID` from each
      stored id to its message. */
  class MessageHeap<T> {
    var messages: seq<Message<T>>
    var byID: map<string, Message<T>>

    /** Every stored message's back-pointer is its slot. */
    ghost predicate Indexed()
      reads this, messages
    {
      forall i :: 0 <= i < |messages| ==> messages[i].index == i
    }

    /** Back-pointers keep the slots apart: no message sits in two slots. */
    lemma IndexedSlotsDistinct()
      requires Indexed()
      ensures forall i, j :: 0 <= i < j < |messages| ==> messages[i] != messages[j]
    {
    }

    ghost predicate Valid()
      reads this, messages
    {
      Indexed() && Keyed(byID, messages) && HeapOrdered(messages, |messages|)
    }

    /** An empty heap (`heap.Init` on no messages does nothing). */
    constructor ()
      ensures Valid() && messages == [] && byID == map[]
    {
      messages := [];
      byID := map[];
    }

    /** The number of stored messages: on a valid heap, also the number of
        ids in use. */
    function Len(): (n: nat)
      reads this, messages
      ensures Valid() ==> n == |byID|
    {
      LenCountsIDs();
      |messages|
    }

    /** Under the invariant the id map has one entry per slot. */
    lemma LenCountsIDs()
      ensures Valid() ==> |byID| == |messages|
    {
      if Valid() {
        KeyedOneToOne(byID, messages);
        IndexedSlotsDistinct();
        DistinctIDsCount(messages);
      }
    }

    /** The slot order is strict: no slot is less than itself, and when slot
        `i` is less than slot `j`, slot `j` is not less than slot `i`. */
    predicate Less(i: nat, j: nat)
      reads this
      requires i < |messages| && j < |messages|
      ensures Less(i, j) ==> i != j && !messages[j].Less(messages[i])
    {
      messages[i].Less(messages[j])
    }

    /** Exchanges two slots and points both messages at their new slots. */
    method Swap(i: nat, j: nat)
      requires i < |messages| && j < |messages| && Indexed()
      modifies this`messages, messages[i], messages[j]
      ensures messages == Swapped(old(messages), i, j)
      ensures Indexed()
    {
      assert forall k :: 0 <= k < |messages| && k != i && k != j ==>
        messages[k] != messages[i] && messages[k] != messages[j];
      messages := messages[i := messages[j]][j := messages[i]];
      messages[i].index := i;
      messages[j].index := j;
    }

    /** Appends a message that is not stored, as the last slot. */
    method Push(m: Message<T>)
      requires Indexed() && m !in messages
      modifies this, m
      ensures messages == old(messages) + [m] && byID == old(byID)[m.id := m]
      ensures m.index == |messages| - 1 && Indexed()
      ensures Keyed(old(byID), old(messages)) && m.id !in old(byID) ==> Keyed(byID, messages)
    {
      m.index := |messages|;
      messages := messages + [m];
      byID := byID[m.id := m];
    }

    /** Takes the last slot off, marks its message as stored nowhere and drops
        its id. */
    method Pop() returns (r: Message<T>)
      requires 0 < |messages| && Indexed()
      modifies this, messages[|messages| - 1]
      ensures r == old(messages[|messages| - 1]) && r.index == NotInIndex
      ensures messages == old(messages[..|messages| - 1]) && byID == old(byID) - {r.id}
      ensures Indexed()
      ensures Keyed(old(byID), old(messages)) ==> Keyed(byID, messages)
    {
      var n := |messages|;
      r := messages[n - 1];
      assert forall k :: 0 <= k < n - 1 ==> messages[k] != r;
      ghost var before := messages;
      ghost var beforeIDs := byID;
      r.ClearHeap();
      messages := messages[..n - 1];
      byID := byID - {r.id};
      if Keyed(beforeIDs, before) {
        forall id | id in byID
          ensures byID[id] in messages
        {
          var k :| 0 <= k < n && before[k] == byID[id];
          assert k != n - 1;
          assert messages[k] == byID[id];
        }
      }
    }

    /** `container/heap`'s `up`: moves the message at `j0` toward the root
        while it is less than its parent. The bound `n` is where heap order
        ends; slots from `n` on are not touched. */
    method Up(j0: nat, ghost n: nat)
      requires j0 < n <= |messages| && Indexed() && HeapExceptUp(messages, n, j0)
      modifies this`messages, messages
      ensures Indexed() && Rearranged(old(messages), messages, n) && HeapOrdered(messages, n)
    {
      var j: nat := j0;
      ghost var a0 := messages;
      while true
        invariant j < n <= |messages| && Indexed()
        invariant Rearranged(a0, messages, n) && HeapExceptUp(messages, n, j)
        decreases j
      {
        var i := Parent(j);
        if i == j || !Less(j, i) {
          break;
        }
        UpStep(messages, n, j);
        SwapRearranges(a0, messages, n, i, j);
        Swap(i, j);
        j := i;
      }
    }

    /** `container/heap`'s `down`: moves the message at `i0` away from the
        root, within `[0, n)`, while a child is less than it; reports whether
        it moved. */
    method Down(i0: nat, n: nat) returns (moved: bool)
      requires i0 <= n <= |messages| && Indexed() && HeapExceptDown(messages, n, i0, i0)
      modifies this`messages, messages
      ensures Indexed() && Rearranged(old(messages), messages, n)
      ensures forall k :: 0 < k < n && k != i0 ==> !messages[k].Less(messages[Parent(k)])
      ensures moved ==> HeapOrdered(messages, n)
      ensures !moved ==> messages == old(messages)
    {
      var i: nat := i0;
      ghost var a0 := messages;
      while true
        invariant i0 <= i <= n <= |messages| && (i < n || i == i0) && Indexed()
        invariant Rearranged(a0, messages, n) && HeapExceptDown(messages, n, i, i0)
        invariant i == i0 ==> messages == a0
        decreases n - i
      {
        var j1 := 2 * i + 1;
        if j1 >= n {
          break;
        }
        var j := j1;
        var j2 := j1 + 1;
        if j2 < n && Less(j2, j1) {
          j := j2;
        }
        ChildChoice(messages, n, i, j);
        if !Less(j, i) {
          NoChildLess(messages, n, i, j);
          break;
        }
        DownStep(messages, n, i, j, i0);
        SwapRearranges(a0, messages, n, i, j);
        Swap(i, j);
        i := j;
      }
      DownDone(messages, n, i, i0);
      moved := i > i0;
    }

    /** The least message, or null on an empty heap. */
    function PeekMessage(): (r: Message?<T>)
      reads this, messages
      requires Valid()
      ensures r == null <==> |messages| == 0
      ensures r != null ==> r in messages && forall m :: m in messages ==> !m.Less(r)
    {
      if Len() == 0 then null
      else
        HeapRootIsMin(messages, |messages|);
        messages[0]
    }

    /** `container/heap`'s `Push`: appends a message that is not stored and
        sifts it up. */
    method HeapPush(m: Message<T>)
      requires Valid() && m !in messages && m.id !in byID
      modifies this, messages, m
      ensures Valid()
      ensures byID == old(byID)[m.id := m] && |messages| == old(|messages|) + 1
      ensures multiset(messages) == old(multiset(messages)) + multiset{m}
    {
      Push(m);
      ghost var pushed := messages;
      Up(|messages| - 1, |messages|);
      KeyedPermutation(byID, pushed, messages);
    }

    /** The sifting part of `heap.Pop`: moves the root to the last slot and
        sifts the message that replaced it down, leaving `[0, n - 1)` in heap
        order. */
    method SiftRootToEnd()
      requires 0 < |messages| && Indexed() && HeapOrdered(messages, |messages|)
      modifies this`messages, messages
      ensures Indexed() && Rearranged(old(messages), messages, |messages|)
      ensures messages[|messages| - 1] == old(messages[0])
      ensures HeapOrdered(messages, |messages| - 1)
    {
      var n := Len() - 1;
      RemoveReady(messages, n, 0);
      Swap(0, n);
      var _ := Down(0, n);
    }

    /** `container/heap`'s `Pop`: moves the root to the last slot, sifts the
        message that replaced it down, and takes the last slot off. */
    method HeapPop() returns (r: Message<T>)
      requires Valid() && 0 < |messages|
      modifies this, messages
      ensures Valid()
      ensures r == old(messages[0]) && r.index == NotInIndex
      ensures byID == old(byID) - {r.id} && |messages| == old(|messages|) - 1
      ensures multiset(messages) == old(multiset(messages)) - multiset{r}
    {
      SiftRootToEnd();
      KeyedPermutation(byID, old(messages), messages);
      ghost var sifted := messages;
      r := Pop();
      assert sifted == messages + [r];
    }

    /** The sifting part of `heap.Remove`: moves slot `i` to the last slot
        and restores heap order at `i` by sifting down or else up, leaving
        `[0, n - 1)` in heap order. */
    method SiftSlotToEnd(i: nat)
      requires i < |messages| && Indexed() && HeapOrdered(messages, |messages|)
      modifies this`messages, messages
      ensures Indexed() && Rearranged(old(messages), messages, |messages|)
      ensures messages[|messages| - 1] == old(messages[i])
      ensures HeapOrdered(messages, |messages| - 1)
    {
      var n := Len() - 1;
      if n != i {
        RemoveReady(messages, n, i);
        Swap(i, n);
        var moved := Down(i, n);
        if !moved {
          Up(i, n);
        }
      }
    }

    /** `container/heap`'s `Remove`: moves slot `i` to the last slot, restores
        heap order at `i`, and takes the last slot off. */
    method HeapRemove(i: nat) returns (r: Message<T>)
      requires Valid() && i < |messages|
      modifies this, messages
      ensures Valid()
      ensures r == old(messages[i]) && r.index == NotInIndex
      ensures byID == old(byID) - {r.id} && |messages| == old(|messages|) - 1
      ensures multiset(messages) == old(multiset(messages)) - multiset{r}
    {
      SiftSlotToEnd(i);
      KeyedPermutation(byID, old(messages), messages);
      ghost var sifted := messages;
      r := Pop();
      assert sifted == messages + [r];
    }

    /** Stores a new message, unless its id is already stored. */
    method PushMessage(id: string, at: int, priority: Int64, value: T) returns (res: Result<Message<T>>)
      requires Valid()
      modifies this, messages
      ensures Valid()
      ensures id in old(byID) ==> res == Err(IDAlreadyInUse) && messages == old(messages) && byID == old(byID)
      ensures id !in old(byID) ==>
        && res.Ok? && fresh(res.value)
        && res.value.id == id && res.value.at == at && res.value.priority == priority && res.value.value == value
        && byID == old(byID)[id := res.value]
        && |messages| == old(|messages|) + 1
        && multiset(messages) == old(multiset(messages)) + multiset{res.value}
    {
      if id in byID {
        return Err(IDAlreadyInUse);
      }
      var message := new Message(id, at, priority, value);
      HeapPush(message);
      res := Ok(message);
    }

    /** Removes and returns the least message, or returns null on an empty
        heap. */
    method PopMessage() returns (r: Message?<T>)
      requires Valid()
      modifies this, messages
      ensures Valid()
      ensures r == null <==> old(|messages|) == 0
      ensures r == null ==> messages == old(messages) && byID == old(byID)
      ensures r != null ==>
        && r == old(PeekMessage()) && r.index == NotInIndex
        && (forall m :: m in old(messages) ==> !m.Less(r))
        && byID == old(byID) - {r.id}
        && |messages| == old(|messages|) - 1
        && multiset(messages) == old(multiset(messages)) - multiset{r}
    {
      if Len() == 0 {
        return null;
      }
      HeapRootIsMin(messages, |messages|);
      r := HeapPop();
    }

    /** Removes and returns the message stored under `id`, found through its
        back-pointer. */
    method RemoveMessage(id: string) returns (res: Result<Message<T>>)
      requires Valid()
      modifies this, messages
      ensures Valid()
      ensures id !in old(byID) ==> res == Err(NotInHeap) && messages == old(messages) && byID == old(byID)
      ensures id in old(byID) ==>
        && res == Ok(old(byID[id])) && res.value.index == NotInIndex
        && byID == old(byID) - {id} && id !in byID
        && |messages| == old(|messages|) - 1
        && multiset(messages) == old(multiset(messages)) - multiset{res.value}
    {
      if id !in byID {
        return Err(NotInHeap);
      }
      var message := byID[id];
      assert messages[message.index] == message;
      var r := HeapRemove(message.index);
      res := Ok(r);
    }

    /** Detaches every stored message, marks each as stored nowhere, and
        leaves the heap empty. The result is in slot order, not sorted. */
    method Unload() returns (result: seq<Message<T>>)
      requires Valid()
      modifies this, messages
      ensures result == old(messages)
      ensures forall m :: m in result ==> m.index == NotInIndex
      ensures forall id :: id in old(byID) ==> old(byID)[id] in result
      ensures forall m :: m in result ==> m.id in old(byID) && old(byID)[m.id] == m
      ensures Valid() && messages == [] && byID == map[]
    {
      result := messages;
      for i := 0 to |messages|
        invariant messages == result && byID == old(byID)
        invariant forall k :: 0 <= k < i ==> messages[k].index == NotInIndex
        invariant forall k :: i <= k < |messages| ==> messages[k].index == k
      {
        messages[i].ClearHeap();
      }
      messages := [];
      byID := map[];
    }
  }
}
