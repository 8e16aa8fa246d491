# timequeue message heap, in Dafny

This project models the indexed binary min-heap at the core of the Go package
`timequeue` (ericelsken/timequeue). The heap holds queued messages and releases
them by due instant. Among messages due at the same instant, the one with the
smaller priority comes first. Each message keeps a back-pointer `index` to its
slot in the heap array. Beside the array sits a map from message id to
message. Together they give:

- an insert that refuses an id already in use;
- a constant-time peek at the least message;
- removal of the least message;
- removal by id through the back-pointer;
- a drain that detaches every message.

Files:

- `messages.dfy` (module `Messages`) models `message.go`. `Message` is a class:
  the heap rewrites its `index` in place. The comparator `Less` is a predicate
  over the fields the heap code (message_heap.go) never writes, which are constants here. The lemmas
  show that `Less` is a strict weak order, so every nonempty set of messages
  has a least member.
- `message_heap.dfy` (module `MessageHeaps`) models `message_heap.go`.
  - `MessageHeap` is a class with `messages: seq<Message<T>>` and
    `byID: map<string, Message<T>>`.
  - Its hooks `Len`, `Less`, `Swap`, `Push` and `Pop` follow the Go methods.
  - Go's `container/heap` is written out over those hooks. `Up` and `Down` are
    its `up` and `down`. `HeapPush`, `HeapPop` and `HeapRemove` are its
    `Push`, `Pop` and `Remove`.
  - `Valid()` is the invariant every operation keeps: `Indexed()`
    (`messages[i].index == i`), `Keyed` (the id map is exact) and
    `HeapOrdered` (no message is less than its parent).
- `scenarios.dfy` (module `HeapScenarios`) strings several operations together:
  consecutive pops come out in order, ties are broken by priority, an id
  removed twice fails the second time, and a duplicate push is refused.

`container/heap` computes a parent slot as `(j - 1) / 2` with Go's truncating
division, so slot 0 is its own parent. Dafny's division on `int` is Euclidean,
so `Parent` writes this out: 0 maps to 0, and `j > 0` maps to `(j - 1) / 2`.
A `time.Time` is an integer instant, and `Before` is `<`. The payload is a type
parameter `T`. Errors are a `Result` datatype: `Err(IDAlreadyInUse)` and
`Err(NotInHeap)`.

## Model

| member | source | states |
|---|---|---|
| `Messages.Message.constructor` | message.go:7-17 | a new message carries exactly the given id, instant, priority and value |
| `Messages.Message.ClearHeap` | message_heap.go:17-19 | afterwards the message's `index` is the sentinel `NotInIndex` (-1) |
| `Messages.Message.Less` | message.go:19-27 | the order is lexicographic on (instant, priority): earlier `at` first, then smaller `priority`; its properties as an order are the lemmas below |
| `Messages.LessIrreflexive` | message.go:19-27 | no message is less than itself |
| `Messages.LessAsymmetric` | message.go:19-27 | `a.Less(b)` and `b.Less(a)` never both hold |
| `Messages.LessTransitive` | message.go:19-27 | `a.Less(b)` and `b.Less(c)` give `a.Less(c)` |
| `Messages.IncomparableIffSameKey` | message.go:19-27 | two messages are mutually not less exactly when they agree on instant and priority, so "not less" is a total preorder |
| `Messages.EarlierIsLess` | message.go:20-22 | a strictly earlier instant makes a message less, whatever the priorities |
| `Messages.LaterIsNotLess` | message.go:23-25 | a strictly later instant makes a message not less, whatever the priorities |
| `Messages.SameInstantComparesPriority` | message.go:26 | at equal instants, `a.Less(b)` holds exactly when `a.priority < b.priority` |
| `Messages.LessIgnoresIdValueIndex` | message.go:19-27 | two pairs of messages that agree on instant and priority compare alike: id, value and index play no part |
| `Messages.MinimumExists` | message.go:19-27 | every nonempty set of messages has a member that no member is less than |
| `MessageHeaps.Parent` | message_heap.go:84 | the parent slot `container/heap` computes is below its child, the root is its own parent, and every other slot is the parent's first or second child |
| `MessageHeaps.Swapped` | message_heap.go:44-48 | exchanging two slots swaps their messages, keeps every other slot and keeps the multiset of messages |
| `MessageHeaps.RootBelow` | message_heap.go:67-72 | in a heap-ordered array no slot is less than the root, by induction up the parent chain |
| `MessageHeaps.HeapRootIsMin` | message_heap.go:67-72 | in a heap-ordered array no message is less than the message in slot 0 |
| `MessageHeaps.UpStep` | message_heap.go:84 | one round of `up` (exchange with a greater parent) moves the only break in heap order up to the parent and keeps the parent no greater than the children |
| `MessageHeaps.ChildChoice` | message_heap.go:92 | the child `down` picks (left, unless a right child exists and is less) has no sibling less than it |
| `MessageHeaps.DownStep` | message_heap.go:92 | one round of `down` (exchange with a least child that is less) moves the only break in heap order down to that child |
| `MessageHeaps.NoChildLess` | message_heap.go:92 | when the chosen child is not less than its parent, no child is |
| `MessageHeaps.DownDone` | message_heap.go:92 | where `down` stops, heap order holds everywhere except perhaps above the start slot, and everywhere once the start slot's message moved |
| `MessageHeaps.RemoveReady` | message_heap.go:100 | moving the last slot into slot `i` of a heap leaves the state `down` (and, failing that, `up`) starts from |
| `MessageHeaps.SwapRearranges` | message_heap.go:44-48 | exchanging two slots below `n` keeps the same multiset of messages and the slots from `n` on |
| `MessageHeaps.KeyedPermutation` | message_heap.go:44-48 | rearranging the array keeps the id map exact |
| `MessageHeaps.KeyedOneToOne` | message_heap.go:21-24 | under the invariant the map's keys are exactly the stored ids and no two stored messages share an id |
| `MessageHeaps.MessageHeap.IndexedSlotsDistinct` | message_heap.go:44-48 | with exact back-pointers no message sits in two slots |
| `MessageHeaps.MessageHeap.constructor` | message_heap.go:26-34 | the new heap is empty, with an empty id map, and satisfies the invariant |
| `MessageHeaps.MessageHeap.Len` | message_heap.go:36-38 | the number of stored messages, which on a valid heap is also the number of ids in the map |
| `MessageHeaps.MessageHeap.LenCountsIDs` | message_heap.go:21-24 | under the invariant the id map has exactly one entry per slot |
| `MessageHeaps.DistinctIDsCount` | message_heap.go:21-24 | messages with pairwise distinct ids carry as many ids as there are messages |
| `MessageHeaps.MessageHeap.Less` | message_heap.go:40-42 | compares the messages in two slots under `less`; the slot order is strict: a slot less than another is a different slot, and the other is not less than it |
| `MessageHeaps.MessageHeap.Swap` | message_heap.go:44-48 | the array becomes the old one with two slots exchanged, and both moved messages point at their new slots |
| `MessageHeaps.MessageHeap.Push` | message_heap.go:50-55 | the message is appended, points at the last slot and is entered in the id map; the map stays exact when its id was new |
| `MessageHeaps.MessageHeap.Pop` | message_heap.go:57-65 | the last slot is taken off and returned, its index becomes the sentinel and its id leaves the map; the map stays exact |
| `MessageHeaps.MessageHeap.Up` | message_heap.go:84 | `up` from slot `j0` restores heap order on `[0, n)`, rearranging only that range and keeping back-pointers exact |
| `MessageHeaps.MessageHeap.Down` | message_heap.go:92 | `down` from `i0` within `[0, n)` restores heap order below the start slot; if anything moved it restores it everywhere, and if nothing moved the array is unchanged |
| `MessageHeaps.MessageHeap.SiftRootToEnd` | message_heap.go:92 | the sifting part of `heap.Pop` puts the old root in the last slot and leaves the other slots heap-ordered |
| `MessageHeaps.MessageHeap.SiftSlotToEnd` | message_heap.go:100 | the sifting part of `heap.Remove` puts the old slot `i` last and leaves the other slots heap-ordered |
| `MessageHeaps.MessageHeap.HeapPush` | message_heap.go:84 | `heap.Push` keeps the invariant, adds exactly the message and its id |
| `MessageHeaps.MessageHeap.HeapPop` | message_heap.go:92 | `heap.Pop` keeps the invariant and returns the old root, detached, with exactly it and its id gone |
| `MessageHeaps.MessageHeap.HeapRemove` | message_heap.go:100 | `heap.Remove(i)` keeps the invariant and returns the old slot `i`, detached, with exactly it and its id gone |
| `MessageHeaps.MessageHeap.PeekMessage` | message_heap.go:67-72 | returns null exactly on an empty heap, and otherwise a stored message that no stored message is less than |
| `MessageHeaps.MessageHeap.PushMessage` | message_heap.go:74-86 | a stored id gives `IDAlreadyInUse` and changes nothing; otherwise a fresh message with exactly the given fields is stored under its id, the length grows by one and the invariant holds |
| `MessageHeaps.MessageHeap.PopMessage` | message_heap.go:88-93 | null and no change on an empty heap; otherwise the message a peek would have given, detached, minimal, with only it and its id gone |
| `MessageHeaps.MessageHeap.RemoveMessage` | message_heap.go:95-101 | an absent id gives `NotInHeap` and changes nothing; otherwise the message stored under that id, detached, with only it and its id gone |
| `MessageHeaps.MessageHeap.Unload` | message_heap.go:103-111 | returns the old array (every stored message, every mapped one), each detached, and leaves an empty heap and map |
| `HeapScenarios.PopTwice` | message_heap.go:88-93 | two pops with no push between come out in order: the second is not less than the first |
| `HeapScenarios.PopPair` | message_heap.go:88-93 | a heap holding exactly two messages pops the lesser first, then the other, and is then empty |
| `HeapScenarios.SameInstantTieBreak` | message.go:26 | two messages due at the same instant pop smaller priority first |
| `HeapScenarios.EarlierBeatsPriority` | message.go:20-22 | the earlier message pops first even when its priority is larger |
| `HeapScenarios.RemoveTwice` | message_heap.go:95-101 | removing an id succeeds once, detaches the message, and then gives `NotInHeap` |
| `HeapScenarios.PushSameIDTwice` | message_heap.go:74-77 | a second push under a stored id gives `IDAlreadyInUse` and the heap keeps one message |

## Left out

- `timequeue.go` is not part of this model. It is the concurrent front end: channel tokens used as locks, a `time.Timer`, a goroutine sending on a channel, and `context` cancellation.
- `timequeue_test.go` is not part of this model: it runs against the real clock and asserts no ordering.
- The nil-out of the vacated slot in `Pop` (message_heap.go:61) only helps the garbage collector. Taking the slice prefix models it.
- Error values are two constructors. `removeMessage` builds a fresh `fmt.Errorf("not in heap")` (message_heap.go:98) rather than the declared `errNotInHeap` (message_heap.go:14). Both are modelled as `NotInHeap`, and the error text is not modelled.
- `heap.Init` (message_heap.go:32) runs on an empty array and does nothing. The constructor models its effect.
- `down`'s guard against `2 * i + 1` overflowing an `int` cannot fire with unbounded integers, and is not modelled.
- The `ID`, `At`, `Priority` and `Value` fields of a message are constants, because the heap code (message_heap.go) never writes them after construction. Callers could still write them: the fields are exported and `pushMessage` hands out the pointer. That is not modelled.
- `time.Time` is an integer instant. Monotonic clock readings, time zones and the wall clock are not modelled.
- `Priority` is an `int64`. It is only compared, never computed on, so no wrap-around arises.
- `MessageHeaps.MessageHeap.HeapPush` requires a message that is not stored and whose id is not mapped. Go's `heap.Push` accepts any message; its only caller (message_heap.go:84) passes a freshly built message under an id it has just checked.
- `MessageHeaps.MessageHeap.Up` takes the heap bound `n` as a ghost parameter. Go's `up` has no bound: it walks parents only.
- `MessageHeaps.MessageHeap.Unload` returns the array in slot order, so it equals the old array. Go returns the very slice, sharing its backing store; aliasing between the returned slice and later use of the heap is not modelled.
