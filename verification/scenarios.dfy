/** Uses of the message heap that string several operations together, with
    what the contracts of the single operations give about the whole. */
module HeapScenarios {
  import opened Messages
  import opened MessageHeaps

  /** Two pops in a row, with no push in between, come out in order: the
      second message is not less than the first. */
  method PopTwice<T>(h: MessageHeap<T>) returns (first: Message?<T>, second: Message?<T>)
    requires h.Valid()
    modifies h, set m | m in h.messages
    ensures h.Valid()
    ensures first == null ==> second == null
    ensures first != null && second != null ==> !second.Less(first)
  {
    ghost var before := h.messages;
    first := h.PopMessage();
    forall m | m in h.messages
      ensures m in before
    {
      assert m in multiset(h.messages);
    }
    second := h.PopMessage();
    if second != null {
      assert second in multiset(old(h.messages));
    }
  }

  /** On a heap holding exactly `x` and `y`, with `y` less than `x`, two
      pops give `y` and then `x`. */
  method PopPair<T>(h: MessageHeap<T>, x: Message<T>, y: Message<T>) returns (first: Message?<T>, second: Message?<T>)
    requires h.Valid() && multiset(h.messages) == multiset{x, y} && y.Less(x)
    modifies h, x, y
    ensures first == y && second == x && h.messages == []
  {
    assert forall m :: m in h.messages ==> m in multiset{x, y};
    first := h.PopMessage();
    LessAsymmetric(y, x);
    assert first == y;
    assert h.messages[0] in multiset{x};
    second := h.PopMessage();
  }

  /** Two messages due at the same instant, the greater pushed first, leave
      the heap smaller priority first (`PopPair` covers either push order). */
  method SameInstantTieBreak() returns (first: Message?<int>, second: Message?<int>)
    ensures first != null && first.id == "d" && first.priority == 1
    ensures second != null && second.id == "c" && second.priority == 5
  {
    var h := new MessageHeap<int>();
    var c := h.PushMessage("c", 0, 5, 30);
    var d := h.PushMessage("d", 0, 1, 40);
    first, second := PopPair(h, c.value, d.value);
  }

  /** An earlier instant leaves first even against a smaller priority. */
  method EarlierBeatsPriority() returns (first: Message?<int>, second: Message?<int>)
    ensures first != null && first.id == "early" && first.priority == 7
    ensures second != null && second.id == "late" && second.priority == -7
  {
    var h := new MessageHeap<int>();
    var late := h.PushMessage("late", 20, -7, 0);
    var early := h.PushMessage("early", 10, 7, 0);
    first, second := PopPair(h, late.value, early.value);
  }

  /** A message removed by id is gone: removing the same id again fails. */
  method RemoveTwice() returns (once: Result<Message<int>>, twice: Result<Message<int>>)
    ensures once.Ok? && once.value.id == "a" && once.value.index == NotInIndex
    ensures twice == Err(NotInHeap)
  {
    var h := new MessageHeap<int>();
    var pushed := h.PushMessage("a", 3, 0, 9);
    once := h.RemoveMessage("a");
    twice := h.RemoveMessage("a");
  }

  /** A second push under a stored id is refused and the heap keeps one
      message. */
  method PushSameIDTwice() returns (once: Result<Message<int>>, twice: Result<Message<int>>, len: nat)
    ensures once.Ok? && twice == Err(IDAlreadyInUse) && len == 1
  {
    var h := new MessageHeap<int>();
    once := h.PushMessage("a", 3, 0, 9);
    twice := h.PushMessage("a", 4, 1, 10);
    len := h.Len();
  }
}
