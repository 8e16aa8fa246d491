/** The `Message` record of the time queue and the order `Less` in which the
    message heap releases messages: earliest instant first, and among equal
    instants the smaller priority first. */
module Messages {

  /** Go's `int64`, the type of a message's priority. */
  newtype Int64 = x: int | -0x8000_0000_0000_0000 <= x < 0x8000_0000_0000_0000

  /** The value `index` holds while a message is stored in no heap. */
  const NotInIndex: int := -1

  /** A queued message. The instant `at` is a `time.Time` read as an integer
      instant, so `Before` is `<`. The heap code (message_heap.go) never writes `id`, `at`,
      `priority` or `value` after construction, so they are constants here;
      `index` is the heap's back-pointer to the message's slot. */
  class Message<T> {
    const id: string
    const at: int
    const priority: Int64
    const value: T
    var index: int

    constructor (id: string, at: int, priority: Int64, value: T)
      ensures this.id == id && this.at == at && this.priority == priority && this.value == value
      ensures index == 0
    {
      this.id := id;
      this.at := at;
      this.priority := priority;
      this.value := value;
      index := 0;
    }

    /** Whether this message is released before `other`: the order is
        lexicographic on the pair (instant, priority), earlier instant first
        and then smaller priority. It reads constants only, so it cannot
        depend on `index`. */
    predicate Less(other: Message<T>)
      ensures Less(other) <==> at < other.at || (at == other.at && priority < other.priority)
    {
      if at < other.at then true
      else if other.at < at then false
      else priority < other.priority
    }

    /** Marks the message as stored in no heap. */
    method ClearHeap()
      modifies this
      ensures index == NotInIndex
    {
      index := NotInIndex;
    }
  }

  lemma LessIrreflexive<T>(a: Message<T>)
    ensures !a.Less(a)
  {
  }

  lemma LessAsymmetric<T>(a: Message<T>, b: Message<T>)
    ensures !(a.Less(b) && b.Less(a))
  {
  }

  lemma LessTransitive<T>(a: Message<T>, b: Message<T>, c: Message<T>)
    requires a.Less(b) && b.Less(c)
    ensures a.Less(c)
  {
  }

  /** Two messages neither of which is less than the other agree on instant
      and priority, so "not less" is a total preorder. */
  lemma IncomparableIffSameKey<T>(a: Message<T>, b: Message<T>)
    ensures !a.Less(b) && !b.Less(a) <==> a.at == b.at && a.priority == b.priority
  {
  }

  lemma EarlierIsLess<T>(a: Message<T>, b: Message<T>)
    requires a.at < b.at
    ensures a.Less(b)
  {
  }

  lemma LaterIsNotLess<T>(a: Message<T>, b: Message<T>)
    requires b.at < a.at
    ensures !a.Less(b)
  {
  }

  lemma SameInstantComparesPriority<T>(a: Message<T>, b: Message<T>)
    requires a.at == b.at
    ensures a.Less(b) <==> a.priority < b.priority
  {
  }

  /** The order looks at instant and priority only: id, value and index play
      no part. */
  lemma LessIgnoresIdValueIndex<T>(a: Message<T>, b: Message<T>, a': Message<T>, b': Message<T>)
    requires a.at == a'.at && a.priority == a'.priority
    requires b.at == b'.at && b.priority == b'.priority
    ensures a.Less(b) <==> a'.Less(b')
  {
  }

  /** `m` is a member of `s` that no member of `s` is less than. */
  ghost predicate IsMinimum<T>(m: Message<T>, s: set<Message<T>>) {
    m in s && forall x :: x in s ==> !x.Less(m)
  }

  /** Every nonempty set of messages has a minimum, so "the least message"
      is well defined. */
  lemma {:induction false} MinimumExists<T>(s: set<Message<T>>)
    requires s != {}
    ensures exists m :: IsMinimum(m, s)
    decreases |s|
  {
    var y :| y in s;
    if s == {y} {
      assert IsMinimum(y, s);
    } else {
      var rest := s - {y};
      MinimumExists(rest);
      var m :| IsMinimum(m, rest);
      if y.Less(m) {
        forall x | x in s
          ensures !x.Less(y)
        {
          if x != y && x.Less(y) {
            LessTransitive(x, y, m);
          }
        }
        assert IsMinimum(y, s);
      } else {
        assert IsMinimum(m, s);
      }
    }
  }
}
