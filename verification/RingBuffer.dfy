// The single-producer single-consumer ring buffer. Producer and consumer each run one call at
// a time; every load, every element copied and every store is a step of its own, and the steps
// of the two interleave freely. Loads and stores of the indices are sequentially consistent.

module RingBuffer {

  import opened Basics

  // ----- Indices that wrap -----

  // head - tail in the index type, when the indices stand for h and t.
  lemma WrappedDifference(h: nat, t: nat, m: nat)
    requires t <= h < t + m
    ensures (h % m - t % m) % m == h - t
  {
    var d := h / m - t / m;
    assert h - t == d * m + (h % m - t % m);
    QuotientAndRemainder(h % m - t % m, m, -d, h - t);
  }

  lemma WrappedSum(h: nat, k: nat, m: nat)
    requires 0 < m
    ensures (h % m + k) % m == (h + k) % m
  {
    var r := (h + k) % m;
    assert h + k == (h + k) / m * m + r && h == h / m * m + h % m;
    var q: int := (h + k) / m - h / m;
    assert h % m + k == r + q * m;
    QuotientAndRemainder(h % m + k, m, q, r);
  }

  // The slot of an index: wrapping around does not move it, as the size divides the modulus.
  lemma SlotOfWrapped(i: nat, size: nat, m: nat)
    requires 0 < size && 0 < m && m % size == 0
    ensures i % m % size == i % size
  {
    var r := i % size;
    var k := i / size - i / m * (m / size);
    assert m == m / size * size;
    assert i == i / m * m + i % m && i == i / size * size + r;
    assert i % m == r + k * size;
    QuotientAndRemainder(i % m, size, k, r);
  }

  // Fewer than `size` apart, slots differ.
  lemma SlotsApart(i: nat, j: nat, size: nat)
    requires i < j < i + size
    ensures i % size != j % size
  {
    assert i == i / size * size + i % size && j == j / size * size + j % size;
    MultipleIsFar(j / size - i / size, size);
    assert (j / size - i / size) * size == j / size * size - i / size * size;
  }

  // ----- The test for a full buffer in insert -----

  // It compares head - tail with the size without converting the difference back to the index
  // type. An index type narrower than int is promoted, and the difference may be negative.
  predicate TestsFull(head: nat, tail: nat, size: nat, m: nat, wide: bool)
    requires 0 < m
  {
    if wide then (head - tail) % m == size else head - tail == size
  }

  // The test is right unless the type is narrow and the buffer is full across the wrap.
  lemma FullTest(h: nat, t: nat, size: nat, m: nat, wide: bool)
    requires t <= h <= t + size && 2 * size <= m && 0 < size
    ensures (TestsFull(h % m, t % m, size, m, wide) <==> h - t == size)
      <==> (wide || h - t < size || t % m <= h % m)
  {
    WrappedDifference(h, t, m);
    var x, y := h % m, t % m;
    if y <= x {
      QuotientAndRemainder(x - y, m, 0, x - y);
    }
  }

  // With 8-bit indices, a full buffer of 16 elements is taken for one with room.
  lemma NarrowIndexOverruns()
    ensures !TestsFull(261 % 256, 245 % 256, 16, 256, false) && 261 - 245 == 16
  {
  }

  // ----- The buffer and the two calls in progress -----

  datatype WriteOp<T> =
    | Insert(item: T)                        // insert
    | Write(buff: seq<T>)                    // writeBuff
    | WriteOn(buff: seq<T>, first: nat)      // writeBuff with a callback: goes on while there is room

  datatype ReadOp =
    | Drop                                   // remove()
    | DropMany(count: nat)                   // remove(cnt)
    | Take                                   // remove(data)
    | Read(count: nat)                       // readBuff
    | ReadOn(count: nat, first: nat)         // readBuff with a callback
    | Clear                                  // consumerClear

  // Where a call is: about to load its own index, about to load the other side's, copying
  // elements, about to store its own index.
  datatype Point = Idle | LoadOwn | LoadOther | Copy | Store

  function Items<T>(op: WriteOp<T>): seq<T> {
    if op.Insert? then [op.item] else op.buff
  }

  predicate Delivers(op: ReadOp) {
    op.Take? || op.Read? || op.ReadOn?
  }

  function Wanted(op: ReadOp): nat {
    match op
    case Drop => 1
    case DropMany(count) => count
    case Take => 1
    case Read(count) => count
    case ReadOn(count, first) => count
    case Clear => 0
  }

  function Min(a: nat, b: nat): nat { if a < b then a else b }

  datatype Turn<T> = Producer(write: WriteOp<T>) | Consumer(read: ReadOp)

  // No turn drops elements.
  predicate AllDeliver<T>(turns: seq<Turn<T>>) {
    forall i | 0 <= i < |turns| :: turns[i].Consumer? ==> Delivers(turns[i].read)
  }

  // The state of the buffer, with everything ever accepted and what became of every element
  // whose slot was given back: it was read, or dropped unread.
  datatype Channel<T> = Channel(
    size: nat, modulus: nat, head: nat, tail: nat, cells: seq<T>, accepted: seq<T>, gone: seq<Option<T>>)

  // The variables of the producer's call; and of the consumer's, with what it has put into the
  // caller's buffer.
  datatype WriteCall<T> = WriteCall(op: WriteOp<T>, point: Point, tmpHead: nat, toWrite: nat, written: nat)

  datatype ReadCall<T> = ReadCall(op: ReadOp, point: Point, tmpTail: nat, toRead: nat, buff: seq<T>)

  // What is noted of a call of the producer: how much had been accepted and how much was gone when
  // it began; how many elements it has published; how much was gone at its last load of tail.
  datatype WriteNotes = WriteNotes(begun: nat, goneBefore: nat, stored: nat, seenTail: nat)

  // And of one of the consumer: how much was gone and how much had been accepted when it began; how
  // far tmpTail is ahead of tail; how much had been accepted at its last load of head.
  datatype ReadNotes = ReadNotes(started: nat, acceptedBefore: nat, ahead: nat, seenHead: nat)

  // A call together with the notes.
  datatype Writing<T> = Writing(
    op: WriteOp<T>, point: Point, tmpHead: nat, toWrite: nat, written: nat,
    begun: nat, goneBefore: nat, stored: nat, seenTail: nat)

  datatype Reading<T> = Reading(
    op: ReadOp, point: Point, tmpTail: nat, toRead: nat, buff: seq<T>,
    started: nat, acceptedBefore: nat, ahead: nat, seenHead: nat)

  ghost predicate IndexOf(index: nat, n: nat, m: nat) {
    0 < m && index == n % m
  }

  // The slots hold the elements from number n on.
  ghost predicate Holding<T>(cells: seq<T>, n: nat, items: seq<T>) {
    forall i | 0 <= i < |items| && 0 < |cells| :: cells[(n + i) % |cells|] == items[i]
  }

  ghost predicate Counted<T>(c: Channel<T>) {
    && 0 < c.size == |c.cells| && 2 * c.size <= c.modulus && c.modulus % c.size == 0
    && IndexOf(c.head, |c.accepted|, c.modulus) && IndexOf(c.tail, |c.gone|, c.modulus)
    && |c.gone| <= |c.accepted| <= |c.gone| + c.size
  }

  // Whatever was read is what was accepted in the same place.
  ghost predicate InOrder<T>(accepted: seq<T>, gone: seq<Option<T>>) {
    |gone| <= |accepted| && forall i | 0 <= i < |gone| :: gone[i].Some? ==> gone[i].value == accepted[i]
  }

  ghost predicate Shared<T>(c: Channel<T>) {
    Counted(c) && InOrder(c.accepted, c.gone) && Holding(c.cells, |c.gone|, c.accepted[|c.gone|..])
  }

  // What the producer has copied and not yet published fits behind what is in the buffer.
  ghost predicate Copied<T>(c: Channel<T>, w: Writing<T>) {
    w.stored <= w.written <= |Items(w.op)| && Holding(c.cells, |c.accepted|, Items(w.op)[w.stored..w.written])
  }

  ghost predicate Published<T>(c: Channel<T>, w: Writing<T>) {
    w.stored <= |Items(w.op)| && w.begun <= |c.accepted| && c.accepted[w.begun..] == Items(w.op)[..w.stored]
  }

  ghost predicate StoppedFull<T>(c: Channel<T>, w: Writing<T>) {
    w.goneBefore <= w.seenTail && w.begun + w.written == w.seenTail + c.size
  }

  // A call that stops short of its items does so because the buffer was full, as of a load of
  // tail that it made itself.
  ghost predicate Room<T>(c: Channel<T>, w: Writing<T>) {
    var items := |Items(w.op)|;
    var end := w.begun + w.written;
    && w.seenTail <= |c.gone| && w.goneBefore <= |c.gone| && w.written <= items
    && match w.point
       case LoadOwn => w.written == w.stored == 0
       case LoadOther => w.written == w.stored && w.written + w.toWrite <= items && (0 < w.toWrite || w.op.Write?)
           && (!w.op.WriteOn? ==> w.toWrite == items)
       case Copy => w.goneBefore <= w.seenTail && w.written + w.toWrite <= items
           && end + w.toWrite <= w.seenTail + c.size
           && (w.op.WriteOn? || w.written + w.toWrite == items || end + w.toWrite == w.seenTail + c.size)
       case Store => w.goneBefore <= w.seenTail && end <= w.seenTail + c.size
           && (w.op.WriteOn? || w.written == items || end == w.seenTail + c.size)
       case Idle => w.written == w.stored && (w.written == items || StoppedFull(c, w))
  }

  ghost predicate Producing<T>(c: Channel<T>, w: Writing<T>) {
    && Room(c, w) && Published(c, w) && Copied(c, w)
    && (w.point.LoadOther? || w.point.Copy? || w.point.Store? ==> IndexOf(w.tmpHead, w.begun + w.written, c.modulus))
  }

  ghost predicate Ended<T>(c: Channel<T>, r: Reading<T>, done: int) {
    if r.op.Clear? || done < Wanted(r.op) then r.acceptedBefore <= r.seenHead == |c.gone| else done == Wanted(r.op)
  }

  // A call that stops short of what it wants does so because the buffer was empty, as of a load
  // of head that it made itself.
  ghost predicate Supply<T>(c: Channel<T>, r: Reading<T>) {
    var done := |c.gone| + r.ahead - r.started;
    && r.started <= |c.gone| && |c.gone| + r.ahead <= r.seenHead <= |c.accepted| && r.acceptedBefore <= |c.accepted|
    && match r.point
       case LoadOwn => r.ahead == 0 && done == 0
       case LoadOther => r.ahead == 0 && (r.op.Clear? || done + r.toRead <= Wanted(r.op))
           && (r.op.ReadOn? ==> 0 < r.toRead)
           && (!r.op.ReadOn? && !r.op.Clear? ==> done == 0 && r.toRead == Wanted(r.op))
       case Copy => Delivers(r.op) && r.acceptedBefore <= r.seenHead
           && |c.gone| + r.ahead + r.toRead <= r.seenHead && done + r.toRead <= Wanted(r.op)
           && (r.op.ReadOn? || done + r.toRead == Wanted(r.op) || |c.gone| + r.ahead + r.toRead == r.seenHead)
       case Store => r.acceptedBefore <= r.seenHead && (r.op.Clear? || done <= Wanted(r.op))
           && (r.op.ReadOn? || (!r.op.Clear? && done == Wanted(r.op)) || |c.gone| + r.ahead == r.seenHead)
       case Idle => r.ahead == 0 && Ended(c, r, done)
  }

  ghost predicate Delivered<T>(c: Channel<T>, r: Reading<T>) {
    if Delivers(r.op) then
      r.started + |r.buff| == |c.gone| + r.ahead <= |c.accepted|
      && r.buff == c.accepted[r.started..r.started + |r.buff|]
    else r.buff == []
  }

  ghost predicate Consuming<T>(c: Channel<T>, r: Reading<T>) {
    && Supply(c, r) && Delivered(c, r)
    && ((r.point.LoadOther? && !r.op.Clear?) || r.point.Copy? || r.point.Store? ==>
          IndexOf(r.tmpTail, |c.gone| + r.ahead, c.modulus))
  }

  // ----- How a call moves on -----

  predicate Finished<T>(w: Writing<T>) {
    !w.op.WriteOn? || w.written == |Items(w.op)|
  }

  // How many elements a call goes for first: with a callback as many as the caller says.
  function FirstToWrite<T>(op: WriteOp<T>): nat {
    if op.WriteOn? && 0 < op.first < |op.buff| then op.first else |Items(op)|
  }

  function FirstToRead(op: ReadOp): nat {
    if op.ReadOn? && 0 < op.first < op.count then op.first else Wanted(op)
  }

  // One step of the producer, which begins `op` when it is between calls.
  ghost predicate WriterMoved<T>(w: Writing<T>, op: WriteOp<T>, w': Writing<T>) {
    && w'.op == (if w.point.Idle? then op else w.op)
    && match w.point
       case Idle => w'.point.LoadOwn? && w'.written == 0
       case LoadOwn => w'.written == w.written && w'.toWrite == FirstToWrite(w.op)
           && (w'.point.LoadOther? || (w'.point.Idle? && Items(w.op) == []))
       case LoadOther => w'.written == w.written && (w'.point.Copy? || (w'.point.Idle? && !w.op.Write?))
       case Copy => if w.toWrite == 0 then w'.point.Store? && w'.written == w.written
                    else w'.point.Copy? && w'.written == w.written + 1 && w'.toWrite == w.toWrite - 1
       case Store => w'.written == w'.stored == w.written && (w'.point.Idle? <==> Finished(w))
  }

  // One step of the consumer.
  ghost predicate ReaderMoved<T>(r: Reading<T>, op: ReadOp, r': Reading<T>) {
    && r'.op == (if r.point.Idle? then op else r.op)
    && match r.point
       case Idle => r'.buff == [] && (if op.Clear? then r'.point.LoadOther? else r'.point.LoadOwn?)
       case LoadOwn => r'.buff == r.buff && r'.toRead == FirstToRead(r.op)
           && (r'.point.LoadOther? || (r'.point.Idle? && Wanted(r.op) == 0))
       case LoadOther => r'.buff == r.buff
           && (r'.point.Idle? || if Delivers(r.op) then r'.point.Copy? else r'.point.Store?)
       case Copy => if r.toRead == 0 then r'.point.Store? && r'.buff == r.buff
                    else r'.point.Copy? && |r'.buff| == |r.buff| + 1 && r'.toRead == r.toRead - 1
       case Store => r'.buff == r.buff && (r'.point.Idle? <==> !r.op.ReadOn? || |r.buff| == Wanted(r.op))
  }

  // What a call notes of the buffer when it begins, and when it loads the index of the other side.
  ghost predicate WriterLooked<T>(c: Channel<T>, w: Writing<T>, w': Writing<T>) {
    && w'.seenTail == (if w.point.LoadOther? then |c.gone| else w.seenTail)
    && if w.point.Idle? then w'.begun == |c.accepted| && w'.goneBefore == |c.gone|
       else w'.begun == w.begun && w'.goneBefore == w.goneBefore
  }

  ghost predicate ReaderLooked<T>(c: Channel<T>, r: Reading<T>, r': Reading<T>) {
    && r'.seenHead == (if r.point.LoadOther? then |c.accepted| else r.seenHead)
    && if r.point.Idle? then r'.started == |c.gone| && r'.acceptedBefore == |c.accepted|
       else r'.started == r.started && r'.acceptedBefore == r.acceptedBefore
  }

  // What a call has copied and not yet published.
  function Unpublished<T>(w: Writing<T>): seq<T> {
    if w.stored <= w.written <= |Items(w.op)| then Items(w.op)[w.stored..w.written] else []
  }

  // A moment of a run.
  datatype Moment<T> = Moment(c: Channel<T>, w: Writing<T>, r: Reading<T>)

  // One side makes its step; the other side's call and all that only the other side may change
  // stay as they are. Only storing its index changes what has been accepted, or what is gone.
  ghost predicate Turned<T>(m: Moment<T>, turn: Turn<T>, m': Moment<T>) {
    match turn
    case Producer(op) =>
      && WriterMoved(m.w, op, m'.w) && WriterLooked(m.c, m.w, m'.w) && m'.r == m.r && m'.c.gone == m.c.gone
      && m'.c.accepted == m.c.accepted + if m.w.point.Store? then Unpublished(m.w) else []
    case Consumer(op) =>
      && ReaderMoved(m.r, op, m'.r) && ReaderLooked(m.c, m.r, m'.r) && m'.w == m.w
      && m'.c.accepted == m.c.accepted && m.c.gone <= m'.c.gone
      && |m'.c.gone| == |m.c.gone| + if m.r.point.Store? then m.r.ahead else 0
  }

  // ----- What the steps on the buffer keep -----

  lemma NewChannel<T>(c: Channel<T>, w: Writing<T>, r: Reading<T>)
    requires 0 < c.size == |c.cells| && 2 * c.size <= c.modulus && c.modulus % c.size == 0
    requires c.head == c.tail == 0 && c.accepted == [] && c.gone == []
    requires w == Writing(Write([]), Idle, 0, 0, 0, 0, 0, 0, 0) && r == Reading(Read(0), Idle, 0, 0, [], 0, 0, 0, 0)
    ensures Shared(c) && Producing(c, w) && Consuming(c, r)
  {
  }

  lemma BeginWriteKeeps<T>(c: Channel<T>, w: Writing<T>, op: WriteOp<T>)
    requires Producing(c, w) && w.point.Idle?
    ensures Producing(c, Writing(op, LoadOwn, w.tmpHead, w.toWrite, 0, |c.accepted|, |c.gone|, 0, w.seenTail))
  {
  }

  // The producer has loaded head and is going to write n elements.
  lemma LoadHeadKeeps<T>(c: Channel<T>, w: Writing<T>, n: nat)
    requires Shared(c) && Producing(c, w) && w.point.LoadOwn?
    requires n <= |Items(w.op)| && (!w.op.WriteOn? ==> n == |Items(w.op)|)
    ensures 0 < n || w.op.Write? ==> Producing(c, w.(tmpHead := c.head, toWrite := n, point := LoadOther))
    ensures |Items(w.op)| == 0 ==> Producing(c, w.(tmpHead := c.head, toWrite := n, point := Idle))
  {
  }

  // What the producer computes from the tail it loads.
  lemma FreeSlots<T>(c: Channel<T>, w: Writing<T>)
    requires Counted(c) && IndexOf(w.tmpHead, |c.accepted|, c.modulus)
    ensures 0 <= (c.size - (w.tmpHead - c.tail) % c.modulus) % c.modulus == c.size - (|c.accepted| - |c.gone|)
    ensures TestsFull(w.tmpHead, c.tail, c.size, c.modulus, true) <==> |c.accepted| - |c.gone| == c.size
  {
    WrappedDifference(|c.accepted|, |c.gone|, c.modulus);
    assert (w.tmpHead - c.tail) % c.modulus == |c.accepted| - |c.gone|;
    QuotientAndRemainder(c.size - (|c.accepted| - |c.gone|), c.modulus, 0, c.size - (|c.accepted| - |c.gone|));
  }

  // The test of insert, on the indices as they are.
  lemma InsertTests<T>(c: Channel<T>, w: Writing<T>, wide: bool)
    requires Counted(c) && IndexOf(w.tmpHead, |c.accepted|, c.modulus)
    ensures (TestsFull(w.tmpHead, c.tail, c.size, c.modulus, wide) <==> |c.accepted| - |c.gone| == c.size)
      <==> (wide || |c.accepted| - |c.gone| < c.size || c.tail <= c.head)
    ensures |c.accepted| - |c.gone| < c.size ==> !TestsFull(w.tmpHead, c.tail, c.size, c.modulus, wide)
  {
    FullTest(|c.accepted|, |c.gone|, c.size, c.modulus, wide);
  }

  // The producer has loaded tail, and so knows of so many free slots at least.
  lemma LoadTailKeeps<T>(c: Channel<T>, w: Writing<T>)
    requires Shared(c) && Producing(c, w) && w.point.LoadOther?
    ensures Counted(c) && IndexOf(w.tmpHead, |c.accepted|, c.modulus) && (w.op.Insert? ==> w.toWrite == 1)
    ensures var free := c.size - (|c.accepted| - |c.gone|);
      && 0 <= free
      && Producing(c, w.(seenTail := |c.gone|, toWrite := Min(w.toWrite, free), point := Copy))
      && (free == 0 && !w.op.Write? ==> Producing(c, w.(seenTail := |c.gone|, point := Idle)))
  {
  }

  lemma CopiedAll<T>(c: Channel<T>, w: Writing<T>)
    requires Producing(c, w) && w.point.Copy? && w.toWrite == 0
    ensures Producing(c, w.(point := Store))
  {
  }

  // The producer copies one more element.
  lemma CopyInKeeps<T>(c: Channel<T>, w: Writing<T>)
    requires Shared(c) && Producing(c, w) && w.point.Copy? && 0 < w.toWrite
    ensures 0 < c.modulus && 0 < c.size && w.written < |Items(w.op)| && w.tmpHead % c.size < c.size == |c.cells|
    ensures var c' := c.(cells := c.cells[w.tmpHead % c.size := Items(w.op)[w.written]]);
      var w' := w.(tmpHead := (w.tmpHead + 1) % c.modulus, written := w.written + 1, toWrite := w.toWrite - 1);
      Shared(c') && Producing(c', w')
  {
    hide Holding, InOrder;
    var at := w.begun + w.written;
    SlotOfWrapped(at, c.size, c.modulus);
    WrappedSum(at, 1, c.modulus);
    assert w.tmpHead % c.size == at % |c.cells|;
    var c' := c.(cells := c.cells[w.tmpHead % c.size := Items(w.op)[w.written]]);
    HoldingMore(c.cells, |c.accepted|, Items(w.op)[w.stored..w.written], Items(w.op)[w.written]);
    assert Items(w.op)[w.stored..w.written + 1] == Items(w.op)[w.stored..w.written] + [Items(w.op)[w.written]];
    HoldingStill(c.cells, |c.gone|, c.accepted[|c.gone|..], at, Items(w.op)[w.written]);
  }

  lemma HoldingMore<T>(cells: seq<T>, n: nat, items: seq<T>, x: T)
    requires Holding(cells, n, items) && |items| < |cells|
    ensures Holding(cells[(n + |items|) % |cells| := x], n, items + [x])
  {
    HoldingStill(cells, n, items, n + |items|, x);
  }

  lemma HoldingStill<T>(cells: seq<T>, n: nat, items: seq<T>, at: nat, x: T)
    requires Holding(cells, n, items) && n + |items| <= at < n + |cells|
    ensures Holding(cells[at % |cells| := x], n, items)
  {
    var after := cells[at % |cells| := x];
    forall i | 0 <= i < |items|
      ensures after[(n + i) % |after|] == items[i]
    {
      SlotsApart(n + i, at, |cells|);
    }
  }

  // The producer publishes what it has copied.
  lemma StoreHeadKeeps<T>(c: Channel<T>, w: Writing<T>)
    requires Shared(c) && Producing(c, w) && w.point.Store?
    ensures var c' := c.(head := w.tmpHead, accepted := c.accepted + Items(w.op)[w.stored..w.written]);
      && Shared(c') && c.accepted <= c'.accepted
      && (w.op.WriteOn? && w.written < |Items(w.op)| ==>
            Producing(c', w.(stored := w.written, toWrite := |Items(w.op)| - w.written, point := LoadOther)))
      && (!w.op.WriteOn? || w.written == |Items(w.op)| ==> Producing(c', w.(stored := w.written, point := Idle)))
  {
    hide Holding;
    var items := Items(w.op)[w.stored..w.written];
    var all := c.accepted + items;
    assert all[w.begun..] == c.accepted[w.begun..] + items;
    assert Items(w.op)[..w.written] == Items(w.op)[..w.stored] + items;
    assert all[|c.gone|..] == c.accepted[|c.gone|..] + items;
    HoldingBoth(c.cells, |c.gone|, c.accepted[|c.gone|..], items);
    assert Items(w.op)[w.written..w.written] == [];
    HoldingNone(c.cells, |all|);
  }

  lemma HoldingNone<T>(cells: seq<T>, n: nat)
    ensures Holding(cells, n, [])
  {
  }

  lemma HoldingBoth<T>(cells: seq<T>, n: nat, items: seq<T>, more: seq<T>)
    requires Holding(cells, n, items) && Holding(cells, n + |items|, more)
    ensures Holding(cells, n, items + more)
  {
  }

  // Publishing more does not disturb the consumer, and giving back slots does not disturb the
  // producer.
  lemma ConsumerUndisturbed<T>(c: Channel<T>, c': Channel<T>, r: Reading<T>)
    requires Consuming(c, r) && c'.gone == c.gone && c'.modulus == c.modulus && c.accepted <= c'.accepted
    ensures Consuming(c', r)
  {
  }

  lemma ProducerUndisturbed<T>(c: Channel<T>, c': Channel<T>, w: Writing<T>)
    requires Producing(c, w) && c'.accepted == c.accepted && c'.modulus == c.modulus && c'.size == c.size
    requires c'.cells == c.cells && |c.gone| <= |c'.gone|
    ensures Producing(c', w)
  {
  }

  lemma BeginReadKeeps<T>(c: Channel<T>, r: Reading<T>, op: ReadOp)
    requires Consuming(c, r) && r.point.Idle?
    ensures Consuming(c, Reading(op, if op.Clear? then LoadOther else LoadOwn, r.tmpTail, r.toRead, [],
                                 |c.gone|, |c.accepted|, 0, r.seenHead))
  {
  }

  // The consumer has loaded tail and is going to take n elements.
  lemma LoadOwnTailKeeps<T>(c: Channel<T>, r: Reading<T>, n: nat)
    requires Shared(c) && Consuming(c, r) && r.point.LoadOwn?
    requires n <= Wanted(r.op) && (!r.op.ReadOn? ==> n == Wanted(r.op))
    ensures 0 < n || !r.op.ReadOn? ==> Consuming(c, r.(tmpTail := c.tail, toRead := n, point := LoadOther))
    ensures Wanted(r.op) == 0 && r.op.ReadOn? ==> Consuming(c, r.(tmpTail := c.tail, toRead := n, point := Idle))
  {
  }

  // What the consumer computes from the head it loads.
  lemma UsedSlots<T>(c: Channel<T>, r: Reading<T>)
    requires Counted(c) && IndexOf(r.tmpTail, |c.gone|, c.modulus)
    ensures 0 <= (c.head - r.tmpTail) % c.modulus == |c.accepted| - |c.gone|
    ensures r.tmpTail == c.head <==> |c.accepted| == |c.gone|
  {
    WrappedDifference(|c.accepted|, |c.gone|, c.modulus);
    if r.tmpTail == c.head { QuotientAndRemainder(c.head - r.tmpTail, c.modulus, 0, 0); }
  }

  // The consumer has loaded head, and so knows of so many elements at least.
  lemma LoadOtherHeadKeeps<T>(c: Channel<T>, r: Reading<T>)
    requires Shared(c) && Consuming(c, r) && r.point.LoadOther? && !r.op.Clear?
    ensures Counted(c) && IndexOf(r.tmpTail, |c.gone|, c.modulus)
    ensures Delivers(r.op) ==>
      Consuming(c, r.(seenHead := |c.accepted|, toRead := Min(r.toRead, |c.accepted| - |c.gone|), point := Copy))
    ensures |c.accepted| == |c.gone| ==> Consuming(c, r.(seenHead := |c.accepted|, point := Idle))
  {
  }

  lemma DropKeeps<T>(c: Channel<T>, r: Reading<T>, n: nat)
    requires Shared(c) && Consuming(c, r) && r.point.LoadOther? && (r.op.Drop? || r.op.DropMany?)
    requires n == Min(r.toRead, |c.accepted| - |c.gone|)
    ensures 0 < c.modulus
    ensures Consuming(c, r.(seenHead := |c.accepted|,
                            tmpTail := (r.tmpTail + n) % c.modulus, ahead := n, point := Store))
  {
    WrappedSum(|c.gone|, n, c.modulus);
  }

  lemma ClearKeeps<T>(c: Channel<T>, r: Reading<T>)
    requires Shared(c) && Consuming(c, r) && r.point.LoadOther? && r.op.Clear?
    ensures |c.gone| <= |c.accepted|
    ensures Consuming(c, r.(seenHead := |c.accepted|,
                            tmpTail := c.head, ahead := |c.accepted| - |c.gone|, point := Store))
  {
  }

  lemma CopiedOut<T>(c: Channel<T>, r: Reading<T>)
    requires Consuming(c, r) && r.point.Copy? && r.toRead == 0
    ensures Consuming(c, r.(point := Store))
  {
  }

  // The consumer copies out one more element.
  lemma CopyOutKeeps<T>(c: Channel<T>, r: Reading<T>)
    requires Shared(c) && Consuming(c, r) && r.point.Copy? && 0 < r.toRead
    ensures 0 < c.modulus && 0 < c.size == |c.cells|
    ensures Consuming(c, r.(tmpTail := (r.tmpTail + 1) % c.modulus, toRead := r.toRead - 1,
                            buff := r.buff + [c.cells[r.tmpTail % c.size]], ahead := r.ahead + 1))
  {
    var at := |c.gone| + r.ahead;
    SlotOfWrapped(at, c.size, c.modulus);
    WrappedSum(at, 1, c.modulus);
    assert c.cells[at % |c.cells|] == c.accepted[|c.gone|..][r.ahead];
    assert c.accepted[r.started..at + 1] == c.accepted[r.started..at] + [c.accepted[at]];
  }

  // What becomes of the elements given back.
  ghost function Outcome<T>(c: Channel<T>, r: Reading<T>): (o: seq<Option<T>>)
    requires Consuming(c, r)
    ensures |o| == r.ahead
  {
    if Delivers(r.op) then seq(r.ahead, i requires 0 <= i < r.ahead => Some(r.buff[|r.buff| - r.ahead + i]))
    else seq(r.ahead, _ => None)
  }

  // The elements given back are the next ones accepted.
  lemma OutcomeIsNext<T>(c: Channel<T>, r: Reading<T>, i: nat)
    requires Consuming(c, r) && i < r.ahead
    ensures |c.gone| + r.ahead <= |c.accepted| && Outcome(c, r)[i].Some? == Delivers(r.op)
    ensures Delivers(r.op) ==> Outcome(c, r)[i].value == c.accepted[|c.gone| + i]
  {
    if Delivers(r.op) { assert r.buff[|r.buff| - r.ahead + i] == c.accepted[|c.gone| + i]; }
  }

  lemma OutcomeInOrder<T>(c: Channel<T>, r: Reading<T>)
    requires Shared(c) && Consuming(c, r)
    ensures InOrder(c.accepted, c.gone + Outcome(c, r))
    ensures var gone := c.gone + Outcome(c, r);
      Delivers(r.op) ==> forall i | |c.gone| <= i < |gone| :: gone[i].Some?
  {
    hide Holding, Counted, Delivered, Outcome;
    forall i: nat | i < r.ahead
      ensures Outcome(c, r)[i].Some? == Delivers(r.op)
      ensures Delivers(r.op) ==> Outcome(c, r)[i].value == c.accepted[|c.gone| + i]
    {
      OutcomeIsNext(c, r, i);
    }
  }

  // The consumer gives slots back.
  lemma StoreTailKeeps<T>(c: Channel<T>, r: Reading<T>)
    requires Shared(c) && Consuming(c, r) && r.point.Store?
    ensures var c' := c.(tail := r.tmpTail, gone := c.gone + Outcome(c, r));
      && Shared(c') && |c.gone| <= |c'.gone| && (r.op.ReadOn? ==> |r.buff| <= Wanted(r.op))
      && (Delivers(r.op) ==> forall i | |c.gone| <= i < |c'.gone| :: c'.gone[i].Some?)
      && (r.op.ReadOn? && |r.buff| < Wanted(r.op) ==>
            Consuming(c', r.(ahead := 0, toRead := Wanted(r.op) - |r.buff|, point := LoadOther)))
      && (!r.op.ReadOn? || |r.buff| == Wanted(r.op) ==> Consuming(c', r.(ahead := 0, point := Idle)))
  {
    hide Holding, InOrder, Outcome, Supply, Delivered;
    OutcomeInOrder(c, r);
    ConsumedStays(c, r);
    ReadOnOrEnded(c, r);
  }

  // What is left in the buffer is what was there behind the elements given back.
  lemma ConsumedStays<T>(c: Channel<T>, r: Reading<T>)
    requires Shared(c) && Consuming(c, r)
    ensures |c.gone| + r.ahead <= |c.accepted|
    ensures Holding(c.cells, |c.gone| + r.ahead, c.accepted[|c.gone| + r.ahead..])
  {
    hide Holding, InOrder, Delivered;
    HoldingSuffix(c.cells, |c.gone|, c.accepted[|c.gone|..], r.ahead);
    assert c.accepted[|c.gone|..][r.ahead..] == c.accepted[|c.gone| + r.ahead..];
  }

  // A reading with a callback that lacks elements goes on, and any other one has ended.
  lemma ReadOnOrEnded<T>(c: Channel<T>, r: Reading<T>)
    requires Consuming(c, r) && r.point.Store?
    ensures var c' := c.(tail := r.tmpTail, gone := c.gone + Outcome(c, r));
      && (r.op.ReadOn? ==> |r.buff| <= Wanted(r.op))
      && (r.op.ReadOn? && |r.buff| < Wanted(r.op) ==>
            Consuming(c', r.(ahead := 0, toRead := Wanted(r.op) - |r.buff|, point := LoadOther)))
      && (!r.op.ReadOn? || |r.buff| == Wanted(r.op) ==> Consuming(c', r.(ahead := 0, point := Idle)))
  {
    hide Outcome;
  }

  lemma HoldingSuffix<T>(cells: seq<T>, n: nat, items: seq<T>, k: nat)
    requires Holding(cells, n, items) && k <= |items|
    ensures Holding(cells, n + k, items[k..])
  {
  }

  // ----- The buffer -----

  class Ringbuffer<T(0)> {
    const data: array<T>               // of buffer_size elements
    const modulus: nat                 // number of values of the index type
    const wide: bool                   // the index type is not narrower than int
    var head: nat
    var tail: nat
    ghost var accepted: seq<T>
    ghost var gone: seq<Option<T>>

    // The calls in progress: their variables, and what is noted of them.
    var writing: WriteCall<T>
    ghost var wrote: WriteNotes
    var reading: ReadCall<T>
    ghost var took: ReadNotes

    ghost function C(): Channel<T>
      reads this, data
    {
      Channel(data.Length, modulus, head, tail, data[..], accepted, gone)
    }

    ghost function W(): Writing<T>
      reads this
    {
      Writing(writing.op, writing.point, writing.tmpHead, writing.toWrite, writing.written,
              wrote.begun, wrote.goneBefore, wrote.stored, wrote.seenTail)
    }

    ghost function R(): Reading<T>
      reads this
    {
      Reading(reading.op, reading.point, reading.tmpTail, reading.toRead, reading.buff,
              took.started, took.acceptedBefore, took.ahead, took.seenHead)
    }

    ghost predicate Valid()
      reads this, data
    {
      Shared(C()) && Producing(C(), W()) && Consuming(C(), R())
    }

    constructor (size: nat, modulus: nat, wide: bool)
      requires 0 < size && 2 * size <= modulus && modulus % size == 0
      ensures Valid() && fresh(data) && writing.point.Idle? && reading.point.Idle? && accepted == [] && gone == []
      ensures data.Length == size && this.modulus == modulus && this.wide == wide
    {
      this.modulus, this.wide := modulus, wide;
      data := new T[size];
      head, tail := 0, 0;
      accepted, gone := [], [];
      writing, wrote := WriteCall(Write([]), Idle, 0, 0, 0), WriteNotes(0, 0, 0, 0);
      reading, took := ReadCall(Read(0), Idle, 0, 0, []), ReadNotes(0, 0, 0, 0);
      new;
      hide Shared, Producing, Consuming;
      NewChannel(C(), W(), R());
    }

    // ----- The producer -----

    method BeginWrite(op: WriteOp<T>)
      requires Valid() && writing.point.Idle?
      modifies this`writing, this`wrote
      ensures Valid() && C() == old(C()) && R() == old(R())
      ensures WriterMoved(old(W()), op, W()) && WriterLooked(old(C()), old(W()), W())
    {
      hide Shared, Producing, Consuming;
      BeginWriteKeeps(C(), W(), op);
      writing := writing.(op := op, point := LoadOwn, written := 0);
      wrote := wrote.(begun := |accepted|, goneBefore := |gone|, stored := 0);
    }

    method LoadHead()
      requires Valid() && writing.point.LoadOwn?
      modifies this`writing
      ensures Valid() && C() == old(C()) && R() == old(R())
      ensures WriterMoved(old(W()), writing.op, W()) && WriterLooked(old(C()), old(W()), W())
    {
      hide Shared, Producing, Consuming;
      ghost var c, w := C(), W();
      writing := writing.(tmpHead := head);
      match writing.op {
        case Insert(_) => writing := writing.(toWrite := 1);
        case Write(b) => writing := writing.(toWrite := |b|);
        case WriteOn(b, first) => writing := writing.(toWrite := if first != 0 && first < |b| then first else |b|);
      }
      LoadHeadKeeps(c, w, writing.toWrite);
      writing := writing.(point := if writing.op.WriteOn? && |writing.op.buff| == 0 then Idle else LoadOther);
    }

    // An insert on a narrow index type takes a buffer that is full across the wrap for one with
    // room: `overrun`, and nothing after that can be trusted.
    method LoadTail() returns (overrun: bool)
      requires Valid() && writing.point.LoadOther?
      modifies this`writing, this`wrote
      ensures Valid() && C() == old(C()) && R() == old(R())
      ensures overrun <==> writing.op.Insert? && !wide && |accepted| - |gone| == data.Length && head < tail
      ensures if overrun then W() == old(W())
              else WriterMoved(old(W()), writing.op, W()) && WriterLooked(old(C()), old(W()), W())
    {
      hide Shared, Producing, Consuming, TestsFull;
      LoadTailKeeps(C(), W());
      FreeSlots(C(), W());
      var full := TestsFull(writing.tmpHead, tail, data.Length, modulus, wide);
      overrun := writing.op.Insert? && !full && TestsFull(writing.tmpHead, tail, data.Length, modulus, true);
      InsertTests(C(), W(), wide);
      if overrun { return; }
      wrote := wrote.(seenTail := |gone|);
      writing := writing.(point := Copy);
      if writing.op.Insert? {
        if full { writing := writing.(point := Idle); }
      } else {
        var available := (data.Length - (writing.tmpHead - tail) % modulus) % modulus;
        if writing.op.WriteOn? && available == 0 { writing := writing.(point := Idle); return; }
        if writing.toWrite > available { writing := writing.(toWrite := available); }
      }
    }

    method CopyIn()
      requires Valid() && writing.point.Copy?
      modifies this`writing, data
      ensures Valid() && C() == old(C()).(cells := data[..]) && R() == old(R())
      ensures WriterMoved(old(W()), writing.op, W()) && WriterLooked(old(C()), old(W()), W())
    {
      hide Shared, Producing, Consuming;
      ghost var c, w, r := C(), W(), R();
      if writing.toWrite == 0 {
        CopiedAll(c, w);
        writing := writing.(point := Store);
        return;
      }
      CopyInKeeps(c, w);
      data[writing.tmpHead % data.Length] := Items(writing.op)[writing.written];
      writing := writing.(tmpHead := (writing.tmpHead + 1) % modulus,
                          written := writing.written + 1, toWrite := writing.toWrite - 1);
      ConsumerUndisturbed(c, C(), r);
    }

    method StoreHead()
      requires Valid() && writing.point.Store?
      modifies this`head, this`accepted, this`wrote, this`writing
      ensures Valid() && gone == old(gone) && R() == old(R())
      ensures old(wrote.stored) <= writing.written <= |Items(writing.op)|
      ensures accepted == old(accepted) + Items(writing.op)[old(wrote.stored)..writing.written]
      ensures WriterMoved(old(W()), writing.op, W()) && WriterLooked(old(C()), old(W()), W())
    {
      hide Shared, Consuming, IndexOf, Room, Published, Holding;
      ghost var c, r := C(), R();
      StoreHeadKeeps(c, W());
      head := writing.tmpHead;
      accepted := accepted + Items(writing.op)[wrote.stored..writing.written];
      wrote := wrote.(stored := writing.written);
      if writing.op.WriteOn? && writing.written < |writing.op.buff| {
        writing := writing.(toWrite := |writing.op.buff| - writing.written, point := LoadOther);
      } else {
        writing := writing.(point := Idle);
      }
      ConsumerUndisturbed(c, C(), r);
    }

    // ----- The consumer -----

    method BeginRead(op: ReadOp)
      requires Valid() && reading.point.Idle?
      modifies this`reading, this`took
      ensures Valid() && C() == old(C()) && W() == old(W())
      ensures ReaderMoved(old(R()), op, R()) && ReaderLooked(old(C()), old(R()), R())
    {
      hide Shared, Producing, Consuming;
      BeginReadKeeps(C(), R(), op);
      // consumerClear loads only head
      reading := reading.(op := op, buff := [], point := if op.Clear? then LoadOther else LoadOwn);
      took := took.(started := |gone|, acceptedBefore := |accepted|, ahead := 0);
    }

    method LoadOwnTail()
      requires Valid() && reading.point.LoadOwn?
      modifies this`reading
      ensures Valid() && C() == old(C()) && W() == old(W())
      ensures ReaderMoved(old(R()), reading.op, R()) && ReaderLooked(old(C()), old(R()), R())
    {
      hide Shared, Producing, Consuming;
      ghost var c, r := C(), R();
      reading := reading.(tmpTail := tail);
      match reading.op {
        case Drop => reading := reading.(toRead := 1);
        case DropMany(count) => reading := reading.(toRead := count);
        case Take => reading := reading.(toRead := 1);
        case Read(count) => reading := reading.(toRead := count);
        case ReadOn(count, first) =>
          reading := reading.(toRead := if first != 0 && first < count then first else count);
        case Clear => reading := reading.(toRead := 0);
      }
      LoadOwnTailKeeps(c, r, reading.toRead);
      reading := reading.(point := if reading.op.ReadOn? && reading.op.count == 0 then Idle else LoadOther);
    }

    // consumerClear
    method LoadHeadToClear()
      requires Valid() && reading.point.LoadOther? && reading.op.Clear?
      modifies this`reading, this`took
      ensures Valid() && C() == old(C()) && W() == old(W())
      ensures ReaderMoved(old(R()), reading.op, R()) && ReaderLooked(old(C()), old(R()), R())
    {
      hide Shared, Producing, Consuming;
      ClearKeeps(C(), R());
      took := took.(seenHead := |accepted|, ahead := |accepted| - |gone|);
      reading := reading.(tmpTail := head, point := Store);
    }

    // remove() and remove(cnt)
    method LoadHeadToDrop()
      requires Valid() && reading.point.LoadOther? && (reading.op.Drop? || reading.op.DropMany?)
      modifies this`reading, this`took
      ensures Valid() && C() == old(C()) && W() == old(W())
      ensures ReaderMoved(old(R()), reading.op, R()) && ReaderLooked(old(C()), old(R()), R())
    {
      hide Shared, Producing, Consuming;
      ghost var c, r := C(), R();
      LoadOtherHeadKeeps(c, r);
      UsedSlots(c, r);
      took := took.(seenHead := |accepted|);
      if reading.op.Drop? && reading.tmpTail == head {
        reading := reading.(point := Idle);
        return;
      }
      var available := (head - reading.tmpTail) % modulus;
      var n := if reading.toRead > available then available else reading.toRead;
      DropKeeps(c, r, n);
      reading := reading.(tmpTail := (reading.tmpTail + n) % modulus, point := Store);
      took := took.(ahead := n);
    }

    // remove(data) and both readBuff
    method LoadHeadToDeliver()
      requires Valid() && reading.point.LoadOther? && Delivers(reading.op)
      modifies this`reading, this`took
      ensures Valid() && C() == old(C()) && W() == old(W())
      ensures ReaderMoved(old(R()), reading.op, R()) && ReaderLooked(old(C()), old(R()), R())
    {
      hide Shared, Producing, Consuming;
      ghost var c, r := C(), R();
      LoadOtherHeadKeeps(c, r);
      UsedSlots(c, r);
      took := took.(seenHead := |accepted|);
      if reading.op.Take? && reading.tmpTail == head {
        reading := reading.(point := Idle);
        return;
      }
      var available := (head - reading.tmpTail) % modulus;
      if reading.op.ReadOn? && available == 0 {
        reading := reading.(point := Idle);
        return;
      }
      if reading.toRead > available { reading := reading.(toRead := available); }
      reading := reading.(point := Copy);
    }

    method CopyOut()
      requires Valid() && reading.point.Copy?
      modifies this`reading, this`took
      ensures Valid() && C() == old(C()) && W() == old(W())
      ensures ReaderMoved(old(R()), reading.op, R()) && ReaderLooked(old(C()), old(R()), R())
    {
      hide Shared, Producing, Consuming;
      ghost var c, r := C(), R();
      if reading.toRead == 0 {
        CopiedOut(c, r);
        reading := reading.(point := Store);
        return;
      }
      CopyOutKeeps(c, r);
      reading := reading.(buff := reading.buff + [data[reading.tmpTail % data.Length]],
                          tmpTail := (reading.tmpTail + 1) % modulus, toRead := reading.toRead - 1);
      took := took.(ahead := took.ahead + 1);
    }

    method StoreTail()
      requires Valid() && reading.point.Store?
      modifies this`tail, this`gone, this`reading, this`took
      ensures Valid() && accepted == old(accepted) && W() == old(W())
      ensures old(gone) <= gone && (Delivers(reading.op) ==> forall i | |old(gone)| <= i < |gone| :: gone[i].Some?)
      ensures ReaderMoved(old(R()), reading.op, R()) && ReaderLooked(old(C()), old(R()), R())
      ensures |gone| == |old(gone)| + old(took.ahead)
    {
      hide Shared, Producing, Consuming, Outcome;
      ghost var c, r, w := C(), R(), W();
      StoreTailKeeps(c, r);
      tail := reading.tmpTail;
      gone := gone + Outcome(c, r);
      took := took.(ahead := 0);
      if reading.op.ReadOn? && |reading.buff| < reading.op.count {
        reading := reading.(toRead := reading.op.count - |reading.buff|, point := LoadOther);
      } else {
        reading := reading.(point := Idle);
      }
      ProducerUndisturbed(c, C(), w);
    }

    // ----- Runs -----

    ghost function Now(): Moment<T>
      reads this, data
    {
      Moment(C(), W(), R())
    }

    // The next step of the producer, which begins with `op` when it is between calls.
    method ProducerStep(op: WriteOp<T>) returns (overrun: bool)
      requires Valid()
      modifies this, data
      ensures Valid() && (!overrun ==> Turned(old(Now()), Producer(op), Now()))
      ensures overrun ==>
        writing.point.LoadOther? && writing.op.Insert? && !wide && |accepted| - |gone| == data.Length && head < tail
      ensures gone == old(gone) && R() == old(R()) && old(accepted) <= accepted
    {
      hide Shared, Producing, Consuming;
      overrun := false;
      match writing.point
      case Idle => BeginWrite(op);
      case LoadOwn => LoadHead();
      case LoadOther => overrun := LoadTail();
      case Copy => CopyIn();
      case Store => StoreHead();
    }

    method ConsumerStep(op: ReadOp)
      requires Valid()
      modifies this
      ensures Valid() && Turned(old(Now()), Consumer(op), Now())
      ensures Delivers(old(reading.op)) ==> forall i | |old(gone)| <= i < |gone| :: gone[i].Some?
      ensures reading.op == old(reading.op) || reading.op == op
    {
      hide Shared, Producing, Consuming;
      match reading.point
      case Idle => BeginRead(op);
      case LoadOwn => LoadOwnTail();
      case LoadOther =>
        if reading.op.Clear? {
          LoadHeadToClear();
        } else if Delivers(reading.op) {
          LoadHeadToDeliver();
        } else {
          LoadHeadToDrop();
        }
      case Copy => CopyOut();
      case Store => StoreTail();
    }

    // Any interleaving of any calls: what is read is what was accepted, in order, with nothing
    // lost or twice; what is dropped is dropped in its place. As long as nothing is dropped, the
    // elements read are the first ones accepted. The run is cut short only where an insert on a
    // narrow index type overruns a full buffer.
    method Run(turns: seq<Turn<T>>) returns (overrun: bool, ghost trace: seq<Moment<T>>)
      requires Valid()
      modifies this, data
      ensures Valid() && old(accepted) <= accepted && old(gone) <= gone
      ensures |gone| <= |accepted| <= |gone| + data.Length
      ensures forall i | 0 <= i < |gone| :: gone[i].Some? ==> gone[i].value == accepted[i]
      ensures Delivers(old(reading.op)) && AllDeliver(turns) ==>
                forall i | |old(gone)| <= i < |gone| :: gone[i] == Some(accepted[i])
      // every turn was taken
      ensures 0 < |trace| <= |turns| + 1 && trace[0] == old(Now())
      ensures (!overrun ==> |trace| == |turns| + 1 && trace[|turns|] == Now())
      ensures forall i | 0 <= i < |trace| - 1 :: Turned(trace[i], turns[i], trace[i + 1])
      ensures forall m | m in trace :: Shared(m.c) && Producing(m.c, m.w) && Consuming(m.c, m.r)
      ensures overrun ==> writing.op.Insert? && !wide && |accepted| - |gone| == data.Length && head < tail
    {
      hide Producing, Consuming, Holding, IndexOf, WriterMoved, ReaderMoved, WriterLooked, ReaderLooked;
      overrun, trace := false, [Now()];
      var i := 0;
      while i < |turns|
        invariant 0 <= i <= |turns| && Valid() && old(accepted) <= accepted && old(gone) <= gone
        invariant reading.op == old(reading.op)
          || exists j :: 0 <= j < i && turns[j].Consumer? && turns[j].read == reading.op
        invariant Delivers(old(reading.op)) && AllDeliver(turns) ==>
          forall k | |old(gone)| <= k < |gone| :: gone[k].Some?
        invariant |trace| == i + 1 && trace[0] == old(Now()) && trace[i] == Now() && !overrun
        invariant forall k | 0 <= k < i :: Turned(trace[k], turns[k], trace[k + 1])
        invariant forall m | m in trace :: Shared(m.c) && Producing(m.c, m.w) && Consuming(m.c, m.r)
      {
        match turns[i] {
          case Producer(op) =>
            overrun := ProducerStep(op);
            if overrun { return; }
          case Consumer(op) => ConsumerStep(op);
        }
        trace := trace + [Now()];
        i := i + 1;
      }
    }
  }

  // ----- What a finished call has done -----

  // When the producer is between calls, the last call's items went in as far as it reports
  // (`written`), one behind the other, and it left items out only for want of room.
  lemma WriteReturns<T>(c: Channel<T>, w: Writing<T>)
    requires Producing(c, w) && w.point.Idle?
    ensures w.written <= |Items(w.op)| && c.accepted[w.begun..] == Items(w.op)[..w.written]
    ensures w.op.Insert? ==> c.accepted[w.begun..] <= [w.op.item]
    ensures w.op.Write? || w.op.WriteOn? ==> c.accepted[w.begun..] <= w.op.buff
    ensures w.written < |Items(w.op)| ==> |c.accepted| == w.seenTail + c.size && w.goneBefore <= w.seenTail <= |c.gone|
  {
  }

  // When the consumer is between calls, it was handed the elements released by the last call, and
  // it got fewer than it wanted only for want of elements.
  lemma ReadReturns<T>(c: Channel<T>, r: Reading<T>)
    requires Consuming(c, r) && r.point.Idle?
    ensures r.started <= |c.gone| <= |c.accepted| && (Delivers(r.op) ==> r.buff == c.accepted[r.started..|c.gone|])
    ensures !r.op.Clear? ==> |c.gone| - r.started <= Wanted(r.op)
    // without want of elements: one, as many as asked for, or all there were
    ensures (r.op.Drop? || r.op.Take?) && |c.gone| < r.acceptedBefore ==> |c.gone| == r.started + 1
    ensures (r.op.DropMany? || r.op.Read? || r.op.ReadOn?) && |c.gone| < r.acceptedBefore ==>
      |c.gone| == r.started + r.op.count
    ensures r.op.Clear? ==> r.acceptedBefore <= |c.gone|
    ensures r.op.Clear? || |c.gone| - r.started < Wanted(r.op) ==> r.acceptedBefore <= |c.gone|
  {
  }

  // The difference of the wrapped indices is the number of elements in the buffer.
  lemma IndexDistance<T>(c: Channel<T>)
    requires Counted(c)
    ensures 0 <= (c.head - c.tail) % c.modulus == |c.accepted| - |c.gone| <= c.size
  {
    WrappedDifference(|c.accepted|, |c.gone|, c.modulus);
  }
}
