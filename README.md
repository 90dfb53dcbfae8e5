# A verified model of the hand-linked queue `Queue<T>`

The repository implements a generic first-in-first-out queue in Rust
(src/queue.rs). It does not use a standard collection. The queue is built by
hand:

- `QueuePtr` records the shape: `Empty`, `Unit` (one value held directly), or
  `Multi` (two or more values).
- In the `Multi` shape the front value is cached in `head_value`. The other
  values live in a chain of heap-allocated `QNode` cells, which runs from
  `head_next` to `tail`.
- Each cell is `Body` (a value and a raw pointer to the next cell) or `Tail`
  (a value only).
- `length` counts the elements.
- `enqueue` allocates a `Tail` cell and rewrites the old tail cell in place
  into a `Body`. `dequeue` frees the `head_next` cell. `Drop` dequeues until
  `None`.

The project has two modules.

- `QueueSpec` (queue_spec.dfy) is the queue seen from outside, as a sequence of
  values with the front first.
  - `Front` is what `peek` and `dequeue` return.
  - `Dequeued` is what one `dequeue` does to the sequence as the code is
    written, and `Drain` is what the draining loop of `Drop` hands out.
  - `DequeuedIntended` and `DrainIntended` are the first-in-first-out
    behaviour the code evidently meant.
  - Lemmas relate the two versions.
- `LinkedQueue` (linked_queue.dfy) is the data structure itself.
  - Raw pointers become addresses (`Ptr`) into an arena: a map `heap` from
    address to `QNode` cell, owned by the queue.
  - `Box::into_raw(Box::new(..))` takes the next unused address (`nextAddr`).
    `Box::from_raw` followed by a drop removes the address from `heap`.
  - The assignment `(**tail) = old_tail` replaces the cell stored at `tail`.
  - `QNode` is a datatype with `Tail`/`Body` and the accessors `Value` and
    `Next`, as in src/queue.rs:10-24. `QueuePtr` is a datatype with the three
    shapes.
  - `Queue` is a class with the fields `length`, `ptr`, `heap` and
    `nextAddr`, and the ghost fields `Contents` (the abstract sequence) and
    `nodes` (the chain's addresses in order).
  - `Valid()` is the object invariant. It says that `length` counts
    `Contents` and that the shape follows the length. In `Multi`, the cells
    from `headNext` to `tail` are `length - 1` distinct cells holding
    `Contents[1..]`, each a `Body` linking to the next except the last, which
    is a `Tail`. The queue owns no other cell.
  - `Enqueue`, `Dequeue` and `Drop` are methods that update the fields in
    place. `Len` and `Peek` are functions that read them.

## Model

| member | source | states |
|---|---|---|
| QueueSpec.Dequeued | src/queue.rs:108-149 | the contents after one `dequeue` as written are one element shorter, and unchanged (empty) on an empty queue |
| QueueSpec.Drain | src/queue.rs:51-55 | the drop loop hands out exactly as many values as the queue holds |
| QueueSpec.DequeuedIntended | src/queue.rs:108-149 | the contents after one corrected `dequeue` are one element shorter, and stay empty on an empty queue |
| QueueSpec.DrainIntended | src/queue.rs:51-55 | draining with the corrected `dequeue` hands out exactly as many values as the queue holds |
| LinkedQueue.DemoQueue | src/main.rs:6-18 | the six enqueues of the demo on a new queue give a valid queue holding 8, 16, 32, 64, 128, 256 |
| QueueSpec.DrainStep | src/queue.rs:51-55 | one round of the drop loop hands out the front and continues with the dequeued contents, so the values handed out so far plus what is still to come are unchanged |
| QueueSpec.DequeuedIntendedStep | src/queue.rs:51-55 | with the corrected `dequeue`, one round of the drop loop moves exactly the front from the contents to the values handed out |
| QueueSpec.DequeueAfterEnqueue | src/queue.rs:69-149 | enqueueing `v` and then dequeueing from a non-empty queue removes the front and keeps `v` at the back, except from one element, where the old front stays and `v` is lost |
| QueueSpec.DequeuedDiffersOnlyAtTwo | src/queue.rs:128-144 | the written and the intended `dequeue` give the same contents exactly when the queue does not hold two different values |
| QueueSpec.DrainRepeatsSecondToLast | src/queue.rs:128-134 | draining two or more elements hands out all but the last in order and then the second-to-last again |
| QueueSpec.DrainShortIsFifo | src/queue.rs:110-118 | draining an empty or one-element queue hands out exactly its contents |
| QueueSpec.DrainDemoQueue | src/main.rs:8-36 | the queue 8, 16, 32, 64, 128, 256 built by the demo drains as 8, 16, 32, 64, 128, 128 |
| QueueSpec.TwoToOneLosesSecond | src/queue.rs:128-134 | a queue holding two different values `a`, `b` drains as `a`, `a`, which is not first-in-first-out |
| QueueSpec.DrainIntendedIsFifo | src/queue.rs:108-149 | with the intended 2-to-1 step, draining hands out the contents in order |
| LinkedQueue.QNode.Value | src/queue.rs:11-15 | both kinds of cell give a copy of their stored value |
| LinkedQueue.QNode.Next | src/queue.rs:17-23 | there is no successor exactly for a `Tail` cell, and a `Body` cell gives its `next` address |
| LinkedQueue.WalkChain | src/queue.rs:17-23 | following `next` from the `i`-th cell of a chain for `k` steps reaches cell `i + k`, or `None` once past the `Tail` |
| LinkedQueue.ChainGrows | src/queue.rs:90-98 | a fresh `Tail` cell plus the old tail rewritten into a `Body` with its value kept, linking to the new cell, extends the chain by one cell holding the new value |
| LinkedQueue.ChainDropsFirst | src/queue.rs:139-144 | freeing the first cell of a chain leaves a chain of the remaining cells and values |
| LinkedQueue.Queue.constructor | src/queue.rs:62-67 | `new` gives a valid queue with length 0, shape `Empty`, no contents and no cells |
| LinkedQueue.Queue.Len | src/queue.rs:58-60 | `len` is the number of elements in the contents |
| LinkedQueue.Queue.Peek | src/queue.rs:151-163 | `peek` returns the front of the contents, `None` when empty, and changes nothing |
| LinkedQueue.Queue.ShapeFollowsLength | src/queue.rs:27-40 | in a valid queue, length 0 iff `Empty`, length 1 iff `Unit`, length two or more iff `Multi` |
| LinkedQueue.Queue.ChainWalk | src/queue.rs:35-39 | in `Multi`, following `next` from `headNext` visits exactly `length - 1` distinct cells, then stops; the only `Tail` among them is `tail` |
| LinkedQueue.Queue.Enqueue | src/queue.rs:69-106 | the invariant holds after; contents gain `v` at the back; length grows by one; from `Empty` no cell is allocated; otherwise one fresh `Tail` cell holding `v` becomes `tail`; in `Multi` the old tail cell becomes a `Body` with its value kept, linking to it, and `headValue`/`headNext` stay |
| LinkedQueue.Queue.Dequeue | src/queue.rs:108-149 | as written: returns the old front, `None` when empty with nothing changed; length drops by one; from two or more the `headNext` cell is freed and no other; from two the single value is the old front; from three or more the freed cell's value becomes the front, its successor the new `headNext`, and `tail` stays; the `length == 0` branch and the early return of `?` are unreachable |
| LinkedQueue.Queue.DequeueIntended | src/queue.rs:108-149 | the corrected `dequeue`: same result, length and freed cell as `Dequeue`, but the contents lose exactly their front |
| LinkedQueue.Queue.Drop | src/queue.rs:51-55 | the drop loop terminates after exactly `length` successful dequeues, hands out `Drain` of the contents, and ends with an `Empty` queue that owns no cell |
| LinkedQueue.Queue.DropIntended | src/queue.rs:51-55 | the drop loop over the corrected `dequeue` hands out exactly the contents in order and ends with an `Empty` queue that owns no cell |
| LinkedQueue.NewQueueIsEmpty | src/queue.rs:62-67 | on a new queue, `len` is 0 and both `peek` and `dequeue` give `None` |
| LinkedQueue.DemoTrace | src/main.rs:6-36 | the whole run of the demo: `peek` gives 8 then 16, `len` gives 6, 5, 4, 3; the three explicit dequeues give 8, 16, 32, and the dequeues of `Drop::drop` when the queue goes out of scope give 64, 128, 128, then `None` |
| LinkedQueue.SingleElementTrace | src/queue.rs:69-118 | enqueueing one value and dequeueing it returns it; the queue ends with length 0 and no cell |

## Left out

- `usize` arithmetic: `length` is a `nat`. Overflow of `length += 1`
  (src/queue.rs:70) is not modelled, because it would take 2^64 elements.
- Raw pointers, `Box` and the global allocator are replaced by the
  per-queue map `heap`. Freeing removes the address, and allocation never
  reuses an address. Use after free and double free are therefore not
  expressible; the model shows instead that each cell is freed once and only
  owned cells are read.
- The bodies of the two unreachable branches are replaced by `assert false`,
  which proves them dead. Those branches are the `length == 0` branch with its
  `println!` (src/queue.rs:135-137) and the early `None` of `?`
  (src/queue.rs:142).
- The derived `Debug` and `Clone` (src/queue.rs:1, 26, 42) are left out. The
  derived `Clone` of `Queue` copies raw pointers, so two queues would share
  cells; that aliasing is outside this model. The `T: Clone + Debug` bounds
  are also dropped: `clone` of a value is a plain copy.
- The `println!` output of src/main.rs is left out: the demo prints the
  queue's `Debug` form, the peeked values and the lengths. `DemoTrace`
  returns the peeked values and the lengths, and it also returns the values
  that the explicit dequeues and the implicit `Drop` hand out, which the demo
  never prints.
- `Drop` returns the values it drains as a ghost out-parameter, so that its
  order can be stated. The source discards them.

## Findings

| source | as written | input that shows it | evidently intended | confidence | as-written member | corrected member |
|---|---|---|---|---|---|---|
| src/queue.rs:128-134 | when a `dequeue` leaves one element, the freed `head_next` cell's value is discarded and the new `Unit` holds `head_value`, the value being returned | draining a queue of 8, 16, 32, 64, 128, 256 hands out 8, 16, 32, 64, 128, 128: 256 is lost and 128 comes out twice; a queue of `a`, `b` drains as `a`, `a` | the value of the freed `head_next` cell becomes the single remaining value, so the queue is first-in-first-out | high; not executed | QueueSpec.TwoToOneLosesSecond | LinkedQueue.Queue.DequeueIntended |

The corrected `DequeueIntended` proves contents `DequeuedIntended(old(Contents))`,
that is, the old contents without their front. `DrainIntendedIsFifo` shows that
draining with it returns the contents unchanged, and `DropIntended` is the
drop loop built on it. The rest of the model
(`Dequeue`, `Drop` and the demo) follows the code as written, so it reproduces
the lost element.
