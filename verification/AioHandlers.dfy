/** The list of handlers for asynchronous I/O, which callbacks may change while the list is being walked. */
module AioHandlers {
  import opened Basics

  /** Identifies a callback. */
  type Handler = nat

  /** What a file descriptor is registered with. */
  datatype Registration = Registration(read: Option<Handler>, write: Option<Handler>, flush: Option<Handler>, opaq: nat)

  datatype Node = Node(fd: int, reg: Registration, deleted: bool)

  /** A call of qemu_aio_set_fd_handler. */
  datatype Call = Call(fd: int, reg: Registration)

  predicate Removes(c: Call) { c.reg.read.None? && c.reg.write.None? }

  /** What a call means for the registry. */
  function Apply(registry: map<int, Registration>, c: Call): map<int, Registration> {
    if Removes(c) then registry - {c.fd} else registry[c.fd := c.reg]
  }

  function ApplyAll(registry: map<int, Registration>, calls: seq<Call>): map<int, Registration> {
    if calls == [] then registry
    else Apply(ApplyAll(registry, calls[..|calls| - 1]), calls[|calls| - 1])
  }

  lemma {:induction false} ApplyAllConcat(registry: map<int, Registration>, x: seq<Call>, y: seq<Call>)
    ensures ApplyAll(registry, x + y) == ApplyAll(ApplyAll(registry, x), y)
    decreases |y|
  {
    if y == [] {
      assert x + y == x;
    } else {
      var n := |y| - 1;
      assert (x + y)[..|x + y| - 1] == x + y[..n];
      ApplyAllConcat(registry, x, y[..n]);
    }
  }

  ghost predicate Apart(list: seq<nat>, i: nat, j: nat)
    requires i < |list| && j < |list|
  {
    list[i] != list[j]
  }

  ghost predicate Distinct(list: seq<nat>) {
    forall i: nat, j: nat {:trigger Apart(list, i, j)} :: i < j < |list| ==> Apart(list, i, j)
  }

  lemma OnceOnly(list: seq<nat>, i: nat, j: nat)
    requires Distinct(list) && i < |list| && j < |list| && i != j
    ensures list[i] != list[j]
  {
    if i < j {
      assert Apart(list, i, j);
    } else {
      assert Apart(list, j, i);
    }
  }

  /** The list holds each node once, and the nodes in memory are exactly those in the list. */
  ghost predicate WellLinked(list: seq<nat>, heap: map<nat, Node>, nextId: nat) {
    && Distinct(list)
    && (forall id :: id in list <==> id in heap)
    && (forall id :: id in heap ==> id < nextId)
  }

  ghost predicate Owned(heap: map<nat, Node>, fd: int) {
    exists id :: id in heap && !heap[id].deleted && heap[id].fd == fd
  }

  /** The live nodes stand for the registry: each entry has one live node, and it has what was registered
      last. */
  ghost predicate Represents(heap: map<nat, Node>, registry: map<int, Registration>) {
    && (forall id :: id in heap && !heap[id].deleted ==>
          heap[id].fd in registry && registry[heap[id].fd] == heap[id].reg)
    && (forall fd {:trigger Owned(heap, fd)} :: fd in registry ==> Owned(heap, fd))
    && (forall i, j :: i in heap && j in heap && !heap[i].deleted && !heap[j].deleted && heap[i].fd == heap[j].fd ==>
          i == j)
    && (forall fd :: fd in registry ==> registry[fd].read.Some? || registry[fd].write.Some?)
  }

  /** A node that is marked, or freed, no longer stands for its descriptor. */
  lemma RepresentsDropped(heap: map<nat, Node>, registry: map<int, Registration>, id: nat, heap': map<nat, Node>,
                          c: Call)
    requires Represents(heap, registry) && id in heap && !heap[id].deleted && heap[id].fd == c.fd && Removes(c)
    requires heap' == heap - {id} || heap' == heap[id := heap[id].(deleted := true)]
    ensures Represents(heap', Apply(registry, c))
  {
    forall fd | fd in Apply(registry, c)
      ensures Owned(heap', fd)
    {
      assert Owned(heap, fd);
      var i :| i in heap && !heap[i].deleted && heap[i].fd == fd;
      assert i in heap' && heap'[i] == heap[i];
    }
  }

  lemma RepresentsSet(heap: map<nat, Node>, registry: map<int, Registration>, id: nat, c: Call)
    requires Represents(heap, registry) && !Removes(c)
    requires if id in heap then !heap[id].deleted && heap[id].fd == c.fd else c.fd !in registry
    ensures Represents(heap[id := Node(c.fd, c.reg, false)], Apply(registry, c))
  {
    var heap' := heap[id := Node(c.fd, c.reg, false)];
    forall fd | fd in Apply(registry, c)
      ensures Owned(heap', fd)
    {
      if fd == c.fd {
        assert id in heap';
      } else {
        assert Owned(heap, fd);
        var i :| i in heap && !heap[i].deleted && heap[i].fd == fd;
        assert i in heap' && heap'[i] == heap[i];
      }
    }
  }

  lemma RepresentsAbsent(heap: map<nat, Node>, registry: map<int, Registration>, c: Call)
    requires Represents(heap, registry) && Removes(c) && c.fd !in registry
    ensures Represents(heap, Apply(registry, c))
  {
    assert Apply(registry, c) == registry;
  }

  /** Some call removes the descriptor. */
  ghost predicate RemovedIn(calls: seq<Call>, fd: int) {
    exists i :: 0 <= i < |calls| && Removes(calls[i]) && calls[i].fd == fd
  }

  /** Some call registers the descriptor. */
  ghost predicate SetIn(calls: seq<Call>, fd: int) {
    exists i :: 0 <= i < |calls| && !Removes(calls[i]) && calls[i].fd == fd
  }

  lemma SetInConcat(x: seq<Call>, y: seq<Call>, fd: int)
    ensures SetIn(x + y, fd) <==> SetIn(x, fd) || SetIn(y, fd)
  {
    var z := x + y;
    if SetIn(x, fd) {
      var i :| 0 <= i < |x| && !Removes(x[i]) && x[i].fd == fd;
      assert z[i] == x[i];
    }
    if SetIn(y, fd) {
      var i :| 0 <= i < |y| && !Removes(y[i]) && y[i].fd == fd;
      assert z[|x| + i] == y[i];
    }
  }

  /** Some call is about the descriptor. */
  ghost predicate TouchedIn(calls: seq<Call>, fd: int) {
    exists i :: 0 <= i < |calls| && calls[i].fd == fd
  }

  lemma RemovedInConcat(x: seq<Call>, y: seq<Call>, fd: int)
    ensures RemovedIn(x + y, fd) <==> RemovedIn(x, fd) || RemovedIn(y, fd)
  {
    var z := x + y;
    if RemovedIn(x, fd) {
      var i :| 0 <= i < |x| && Removes(x[i]) && x[i].fd == fd;
      assert z[i] == x[i];
    }
    if RemovedIn(y, fd) {
      var i :| 0 <= i < |y| && Removes(y[i]) && y[i].fd == fd;
      assert z[|x| + i] == y[i];
    }
  }

  lemma TouchedInConcat(x: seq<Call>, y: seq<Call>, fd: int)
    ensures TouchedIn(x + y, fd) <==> TouchedIn(x, fd) || TouchedIn(y, fd)
  {
    var z := x + y;
    if TouchedIn(x, fd) {
      var i :| 0 <= i < |x| && x[i].fd == fd;
      assert z[i] == x[i];
    }
    if TouchedIn(y, fd) {
      var i :| 0 <= i < |y| && y[i].fd == fd;
      assert z[|x| + i] == y[i];
    }
  }

  /** A descriptor that no call is about keeps its registration. */
  lemma {:induction false} UntouchedKeeps(registry: map<int, Registration>, calls: seq<Call>, fd: int)
    requires !TouchedIn(calls, fd)
    ensures fd in ApplyAll(registry, calls) <==> fd in registry
    ensures fd in registry ==> ApplyAll(registry, calls)[fd] == registry[fd]
    decreases |calls|
  {
    if calls != [] {
      var n := |calls| - 1;
      assert calls == calls[..n] + [calls[n]];
      TouchedInConcat(calls[..n], [calls[n]], fd);
      UntouchedKeeps(registry, calls[..n], fd);
    }
  }

  /** Call `k` is the last one about its descriptor. */
  ghost predicate LastAbout(calls: seq<Call>, k: nat)
    requires k < |calls|
  {
    forall j :: k < j < |calls| ==> calls[j].fd != calls[k].fd
  }

  /** The last call about a descriptor decides: the descriptor is registered exactly if that call has a read or
      a write handler, and with what the call has. */
  lemma {:induction false} LastCallDecides(registry: map<int, Registration>, calls: seq<Call>, k: nat)
    requires k < |calls| && LastAbout(calls, k)
    ensures calls[k].fd in ApplyAll(registry, calls) <==> calls[k].reg.read.Some? || calls[k].reg.write.Some?
    ensures calls[k].fd in ApplyAll(registry, calls) ==> ApplyAll(registry, calls)[calls[k].fd] == calls[k].reg
    decreases |calls|
  {
    var n := |calls| - 1;
    if k < n {
      LastCallDecides(registry, calls[..n], k);
    }
  }

  /** Counted from the end, position `j` of `before` holds the same node in `list`. */
  ghost predicate Alike(list: seq<nat>, before: seq<nat>, j: nat) {
    && j < |before| <= |list| + j
    && list[|list| + j - |before|] == before[j]
  }

  ghost predicate EndAlike(list: seq<nat>, before: seq<nat>, k: nat) {
    forall j: nat {:trigger Alike(list, before, j)} :: k <= j < |before| ==> Alike(list, before, j)
  }

  /** What calls do to a list that is being walked: new nodes go in front, the old ones stay and keep their
      descriptor, exactly those whose descriptor is removed become marked, and only those whose descriptor
      is registered again get other handlers. */
  ghost predicate Changed(list: seq<nat>, heap: map<nat, Node>, nextId: nat, list': seq<nat>, heap': map<nat, Node>,
                          calls: seq<Call>) {
    && |list| <= |list'| && EndAlike(list', list, 0)
    && (forall i :: 0 <= i < |list'| - |list| ==> list'[i] >= nextId)
    && (forall id {:trigger Marked(heap, heap', id, calls)} :: id in heap ==> Marked(heap, heap', id, calls))
    && (forall id {:trigger Accounted(heap', id, calls)} :: id in heap' && id !in heap ==> Accounted(heap', id, calls))
    && (forall id {:trigger Younger(id, nextId)} :: id in heap' && id !in heap ==> Younger(id, nextId))
  }

  ghost predicate Younger(id: nat, nextId: nat) { id >= nextId }

  ghost predicate Marked(heap: map<nat, Node>, heap': map<nat, Node>, id: nat, calls: seq<Call>)
    requires id in heap
  {
    && id in heap' && heap'[id].fd == heap[id].fd
    && (heap'[id].deleted <==> heap[id].deleted || RemovedIn(calls, heap[id].fd))
    && (heap[id].deleted || !SetIn(calls, heap[id].fd) ==> heap'[id].reg == heap[id].reg)
  }

  ghost predicate Accounted(heap: map<nat, Node>, id: nat, calls: seq<Call>)
    requires id in heap
  {
    heap[id].deleted ==> RemovedIn(calls, heap[id].fd)
  }

  lemma ChangedTwice(list: seq<nat>, heap: map<nat, Node>, nextId: nat, list1: seq<nat>, heap1: map<nat, Node>,
                     nextId1: nat, list2: seq<nat>, heap2: map<nat, Node>, x: seq<Call>, y: seq<Call>)
    requires Changed(list, heap, nextId, list1, heap1, x) && Changed(list1, heap1, nextId1, list2, heap2, y)
    requires nextId <= nextId1
    ensures Changed(list, heap, nextId, list2, heap2, x + y)
  {
    forall fd
      ensures RemovedIn(x + y, fd) <==> RemovedIn(x, fd) || RemovedIn(y, fd)
    {
      RemovedInConcat(x, y, fd);
    }
    forall id | id in heap
      ensures Marked(heap, heap2, id, x + y)
    {
      assert Marked(heap, heap1, id, x) && Marked(heap1, heap2, id, y);
      SetInConcat(x, y, heap[id].fd);
    }
    forall id | id in heap2 && id !in heap
      ensures Younger(id, nextId)
    {
      assert if id in heap1 then Younger(id, nextId) else Younger(id, nextId1);
    }
    forall id | id in heap2 && id !in heap
      ensures Accounted(heap2, id, x + y)
    {
      if id in heap1 {
        assert Accounted(heap1, id, x) && Marked(heap1, heap2, id, y);
      } else {
        assert Accounted(heap2, id, y);
      }
    }
    var d := |list2| - |list|;
    var d1 := |list2| - |list1|;
    forall j: nat | j < |list|
      ensures Alike(list2, list, j)
    {
      assert Alike(list1, list, j) && Alike(list2, list1, |list1| + j - |list|);
    }
    forall i | 0 <= i < d
      ensures list2[i] >= nextId
    {
      if i >= d1 {
        assert Alike(list2, list1, i - d1);
      }
    }
  }

  lemma ChangedDropped(list: seq<nat>, heap: map<nat, Node>, nextId: nat, id: nat, c: Call)
    requires id in heap && heap[id].fd == c.fd && Removes(c)
    requires forall i :: i in heap && heap[i].fd == c.fd && !heap[i].deleted ==> i == id
    ensures Changed(list, heap, nextId, list, heap[id := heap[id].(deleted := true)], [c])
  {
    assert RemovedIn([c], c.fd) by {
      assert [c][0] == c;
    }
  }

  lemma ChangedNot(list: seq<nat>, heap: map<nat, Node>, nextId: nat, c: Call, registry: map<int, Registration>)
    requires Represents(heap, registry) && c.fd !in registry
    ensures Changed(list, heap, nextId, list, heap, [c])
  {
  }

  lemma ChangedSet(list: seq<nat>, heap: map<nat, Node>, nextId: nat, id: nat, c: Call)
    requires !Removes(c)
    requires id in heap ==> heap[id].fd == c.fd && !heap[id].deleted
    requires id !in heap ==> id == nextId
    ensures var list' := if id in heap then list else [id] + list;
            Changed(list, heap, nextId, list', heap[id := Node(c.fd, c.reg, false)], [c])
  {
    assert SetIn([c], c.fd) by {
      assert [c][0] == c;
    }
  }

  /** A callback that the walk ran, and the calls it made in turn. */
  datatype Event = Event(fd: int, write: bool, handler: Handler, opaq: nat, made: seq<Call>)

  function Calls(log: seq<Event>): seq<Call> {
    if log == [] then [] else Calls(log[..|log| - 1]) + log[|log| - 1].made
  }

  function On(reg: Registration, write: bool): Option<Handler> {
    if write then reg.write else reg.read
  }

  predicate Fires(node: Node, write: bool, ready: set<int>) {
    !node.deleted && node.fd in ready && On(node.reg, write).Some?
  }

  /** The state in which a walk starts, and the descriptors that are ready. */
  datatype Walk = Walk(list: seq<nat>, heap: map<nat, Node>, registry: map<int, Registration>, rd: set<int>,
                       wr: set<int>) {
    ghost predicate Valid() {
      (forall id :: id in list ==> id in heap) && Represents(heap, registry) && Distinct(list)
    }

    function Ready(write: bool): set<int> { if write then wr else rd }

    function At(place: nat): Node
      requires place < |list| && list[place] in heap
    {
      heap[list[place]]
    }
  }

  /** Event `e` ran a handler that was registered just then, for a descriptor that was ready, on a node that
      was in the list from the start and that no callback had removed, not even to register it anew. */
  ghost predicate Right(w: Walk, log: seq<Event>, e: nat, place: nat)
    requires w.Valid() && e < |log|
  {
    && place < |w.list|
    && var now := ApplyAll(w.registry, Calls(log[..e]));
       && !w.At(place).deleted && w.At(place).fd == log[e].fd
       && log[e].fd in (if log[e].write then w.wr else w.rd)
       && log[e].fd in now
       && (if log[e].write then now[log[e].fd].write else now[log[e].fd].read) == Some(log[e].handler)
       && now[log[e].fd].opaq == log[e].opaq
       && !RemovedIn(Calls(log[..e]), log[e].fd)
  }

  /** The order of the walk: along the list, each node's read handler before its write handler. */
  function Turn(place: nat, write: bool): nat { 2 * place + if write then 1 else 0 }

  /** Every event is right, and the events follow the list, each handler at most once. */
  ghost predicate Traced(w: Walk, log: seq<Event>, places: seq<nat>)
    requires w.Valid()
  {
    && |places| == |log|
    && (forall e {:trigger Right(w, log, e, places[e])} :: 0 <= e < |log| ==> Right(w, log, e, places[e]))
    && (forall d, e {:trigger Turn(places[d], log[d].write), Turn(places[e], log[e].write)} :: 0 <= d < e < |log| ==>
          Turn(places[d], log[d].write) < Turn(places[e], log[e].write))
  }

  ghost predicate Ran(log: seq<Event>, fd: int, write: bool, reg: Registration) {
    exists e :: 0 <= e < |log| && log[e].fd == fd && log[e].write == write && log[e].opaq == reg.opaq
      && Some(log[e].handler) == if write then reg.write else reg.read
  }

  /** A descriptor that is ready, has a handler, and is left alone by the callbacks. */
  ghost predicate Expected(w: Walk, log: seq<Event>, fd: int, write: bool) {
    && fd in w.registry && !TouchedIn(Calls(log), fd)
    && (if write then fd in w.wr && w.registry[fd].write.Some? else fd in w.rd && w.registry[fd].read.Some?)
  }

  /** If no callback interferes with a ready descriptor, its handler has run. */
  ghost predicate Served(w: Walk, log: seq<Event>, place: nat, write: bool)
    requires w.Valid() && place < |w.list|
  {
    Fires(w.At(place), write, w.Ready(write)) && !TouchedIn(Calls(log), w.At(place).fd) ==>
      Ran(log, w.At(place).fd, write, w.At(place).reg)
  }

  /** All events come before a turn. */
  ghost predicate Before(log: seq<Event>, places: seq<nat>, turn: nat) {
    && |places| == |log|
    && forall d {:trigger Turn(places[d], log[d].write)} :: 0 <= d < |log| ==> Turn(places[d], log[d].write) < turn
  }

  /** What is known of the log with `k` nodes visited. */
  ghost predicate Visited(w: Walk, k: nat, log: seq<Event>, places: seq<nat>)
    requires w.Valid() && k <= |w.list|
  {
    && Traced(w, log, places) && Before(log, places, Turn(k, false))
    && (forall j, write :: 0 <= j < k ==> Served(w, log, j, write))
  }

  ghost predicate Kept(w: Walk, j: nat, heap: map<nat, Node>, calls: seq<Call>)
    requires w.Valid() && j < |w.list|
  {
    && w.list[j] in heap && heap[w.list[j]].fd == w.At(j).fd
    && (heap[w.list[j]].deleted <==> w.At(j).deleted || RemovedIn(calls, w.At(j).fd))
    && (!SetIn(calls, w.At(j).fd) ==> heap[w.list[j]].reg == w.At(j).reg)
  }

  ghost predicate Ahead(w: Walk, k: nat, id: nat) {
    exists j: nat :: k <= j < |w.list| && w.list[j] == id
  }

  /** With `k` nodes visited, the rest of the list is still there, marked where callbacks removed it. */
  ghost predicate Midway(w: Walk, k: nat, list: seq<nat>, heap: map<nat, Node>, calls: seq<Call>)
    requires w.Valid()
  {
    && k <= |w.list| <= |list| + k
    && EndAlike(list, w.list, k)
    && (forall j: nat {:trigger Kept(w, j, heap, calls)} :: k <= j < |w.list| ==> Kept(w, j, heap, calls))
    && (forall id {:trigger Accounted(heap, id, calls)} :: id in heap && !Ahead(w, k, id) ==>
          Accounted(heap, id, calls))
  }

  lemma MidwayChanged(w: Walk, k: nat, list: seq<nat>, heap: map<nat, Node>, nextId: nat, calls: seq<Call>,
                      list': seq<nat>, heap': map<nat, Node>, made: seq<Call>)
    requires w.Valid() && Midway(w, k, list, heap, calls) && Changed(list, heap, nextId, list', heap', made)
    ensures Midway(w, k, list', heap', calls + made)
  {
    forall fd
      ensures RemovedIn(calls + made, fd) <==> RemovedIn(calls, fd) || RemovedIn(made, fd)
    {
      RemovedInConcat(calls, made, fd);
    }
    forall j: nat | k <= j < |w.list|
      ensures Alike(list', w.list, j)
    {
      assert Alike(list, w.list, j) && Alike(list', list, |list| + j - |w.list|);
    }
    forall j: nat | k <= j < |w.list|
      ensures Kept(w, j, heap', calls + made)
    {
      assert Kept(w, j, heap, calls) && Marked(heap, heap', w.list[j], made);
      SetInConcat(calls, made, w.At(j).fd);
    }
    forall id | id in heap' && !Ahead(w, k, id)
      ensures Accounted(heap', id, calls + made)
    {
      if id in heap {
        assert Accounted(heap, id, calls) && Marked(heap, heap', id, made);
      } else {
        assert Accounted(heap', id, made);
      }
    }
  }

  lemma CallsOf(log: seq<Event>, e: Event)
    ensures Calls(log + [e]) == Calls(log) + e.made
  {
    assert (log + [e])[..|log|] == log;
  }

  lemma ServedStays(w: Walk, log: seq<Event>, e: Event, place: nat, write: bool)
    requires w.Valid() && place < |w.list| && Served(w, log, place, write)
    ensures Served(w, log + [e], place, write)
  {
    CallsOf(log, e);
    var fd := w.At(place).fd;
    TouchedInConcat(Calls(log), e.made, fd);
    if Ran(log, fd, write, w.At(place).reg) {
      var i :| 0 <= i < |log| && log[i].fd == fd && log[i].write == write
            && Some(log[i].handler) == On(w.At(place).reg, write) && log[i].opaq == w.At(place).reg.opaq;
      assert (log + [e])[i] == log[i];
    }
  }

  lemma TracedGrows(w: Walk, log: seq<Event>, places: seq<nat>, e: Event, place: nat)
    requires w.Valid() && Traced(w, log, places)
    requires Right(w, log + [e], |log|, place)
    requires forall d {:trigger Turn(places[d], log[d].write)} :: 0 <= d < |log| ==>
               Turn(places[d], log[d].write) < Turn(place, e.write)
    ensures Traced(w, log + [e], places + [place])
  {
    var log', places' := log + [e], places + [place];
    forall i | 0 <= i < |log'|
      ensures Right(w, log', i, places'[i])
    {
      if i < |log| {
        assert log'[..i] == log[..i];
        assert Right(w, log, i, places[i]);
      }
    }
  }

  /** The node that the walk has reached stands for what is registered now. */
  lemma ReachedIsRight(w: Walk, k: nat, list: seq<nat>, heap: map<nat, Node>, registry: map<int, Registration>,
                       log: seq<Event>, write: bool, made: seq<Call>)
    requires w.Valid() && Midway(w, k, list, heap, Calls(log)) && k < |w.list| && w.list[k] in heap
    requires Represents(heap, registry) && registry == ApplyAll(w.registry, Calls(log))
    requires Fires(heap[w.list[k]], write, w.Ready(write))
    ensures var node := heap[w.list[k]];
            Right(w, log + [Event(node.fd, write, On(node.reg, write).value, node.reg.opaq, made)], |log|, k)
  {
    assert Kept(w, k, heap, Calls(log));
    var node := heap[w.list[k]];
    var log' := log + [Event(node.fd, write, On(node.reg, write).value, node.reg.opaq, made)];
    assert log'[..|log|] == log;
  }

  /** What the callbacks do is what they are taken to do after the events so far. */
  ghost predicate Prompted(log: seq<Event>, react: seq<Event> -> seq<Call>) {
    forall e :: 0 <= e < |log| ==> log[e].made == react(log[..e])
  }

  lemma PromptedMore(log: seq<Event>, e: Event, react: seq<Event> -> seq<Call>)
    requires Prompted(log, react) && e.made == react(log)
    ensures Prompted(log + [e], react)
  {
    var log' := log + [e];
    forall i | 0 <= i < |log'|
      ensures log'[i].made == react(log'[..i])
    {
      assert log'[..i] == log[..i];
      assert log[..|log|] == log;
    }
  }

  /** The log goes on by at most one event. */
  ghost predicate Continues(log: seq<Event>, log': seq<Event>, places: seq<nat>, places': seq<nat>, made: seq<Call>) {
    (log' == log || exists e :: log' == log + [e]) && places <= places' && Calls(log') == Calls(log) + made
  }

  /** The log when a handler of the node reached has run. */
  lemma LogGrows(w: Walk, k: nat, list: seq<nat>, heap: map<nat, Node>, registry: map<int, Registration>,
                 log: seq<Event>, places: seq<nat>, write: bool, made: seq<Call>, log': seq<Event>)
    returns (places': seq<nat>)
    requires w.Valid() && Midway(w, k, list, heap, Calls(log)) && k < |w.list| && w.list[k] in heap
    requires Represents(heap, registry) && registry == ApplyAll(w.registry, Calls(log))
    requires Fires(heap[w.list[k]], write, w.Ready(write))
    requires var node := heap[w.list[k]];
             log' == log + [Event(node.fd, write, On(node.reg, write).value, node.reg.opaq, made)]
    requires Traced(w, log, places) && Before(log, places, Turn(k, write))
    ensures Calls(log') == Calls(log) + made
    ensures Traced(w, log', places') && Before(log', places', Turn(k, write) + 1)
    ensures Continues(log, log', places, places', made)
  {
    var e := log'[|log|];
    CallsOf(log, e);
    ReachedIsRight(w, k, list, heap, registry, log, write, made);
    TracedGrows(w, log, places, e, k);
    places' := places + [k];
  }

  /** A node that callbacks left alone has what it was registered with. */
  lemma ReachedFires(w: Walk, k: nat, list: seq<nat>, heap: map<nat, Node>, registry: map<int, Registration>,
                     calls: seq<Call>, write: bool)
    requires w.Valid() && Midway(w, k, list, heap, calls) && k < |w.list| && w.list[k] in heap
    requires Represents(heap, registry) && registry == ApplyAll(w.registry, calls)
    requires Fires(w.At(k), write, w.Ready(write)) && !TouchedIn(calls, w.At(k).fd)
    ensures heap[w.list[k]].reg == w.At(k).reg && Fires(heap[w.list[k]], write, w.Ready(write))
  {
    assert Kept(w, k, heap, calls);
    assert w.list[k] in w.list;
    UntouchedKeeps(w.registry, calls, w.At(k).fd);
  }

  lemma ServedNow(w: Walk, k: nat, list: seq<nat>, heap: map<nat, Node>, registry: map<int, Registration>,
                  log: seq<Event>, write: bool, made: seq<Call>, log': seq<Event>)
    requires w.Valid() && Midway(w, k, list, heap, Calls(log)) && k < |w.list| && w.list[k] in heap
    requires Represents(heap, registry) && registry == ApplyAll(w.registry, Calls(log))
    requires var node := heap[w.list[k]];
             if Fires(node, write, w.Ready(write))
             then log' == log + [Event(node.fd, write, On(node.reg, write).value, node.reg.opaq, made)]
             else log' == log
    ensures Served(w, log', k, write)
  {
    assert Kept(w, k, heap, Calls(log));
    var node := heap[w.list[k]];
    if Fires(w.At(k), write, w.Ready(write)) && !TouchedIn(Calls(log'), w.At(k).fd) {
      if Fires(node, write, w.Ready(write)) {
        CallsOf(log, log'[|log|]);
        TouchedInConcat(Calls(log), made, w.At(k).fd);
      }
      ReachedFires(w, k, list, heap, registry, Calls(log), write);
      assert log'[|log|].fd == node.fd;
    }
  }

  /** A step leaves everyone served who was. */
  lemma ServedAllStay(w: Walk, log: seq<Event>, log': seq<Event>, k: nat, last: bool)
    requires w.Valid() && k < |w.list|
    requires forall j, write :: 0 <= j < k ==> Served(w, log, j, write)
    requires last ==> Served(w, log, k, false)
    requires log' == log || exists e :: log' == log + [e]
    ensures forall j, write :: 0 <= j < k ==> Served(w, log', j, write)
    ensures last ==> Served(w, log', k, false)
  {
    if log' != log {
      var e :| log' == log + [e];
      forall j, write | 0 <= j < k
        ensures Served(w, log', j, write)
      {
        ServedStays(w, log, e, j, write);
      }
      if last {
        ServedStays(w, log, e, k, false);
      }
    }
  }

  lemma VisitedNext(w: Walk, k: nat, log: seq<Event>, places: seq<nat>, log1: seq<Event>, log': seq<Event>,
                    places': seq<nat>)
    requires w.Valid() && k < |w.list| && Visited(w, k, log, places)
    requires log1 == log || exists e :: log1 == log + [e]
    requires log' == log1 || exists e :: log' == log1 + [e]
    requires Served(w, log1, k, false) && Served(w, log', k, true) && Traced(w, log', places')
    requires Before(log', places', Turn(k, true) + 1)
    ensures Visited(w, k + 1, log', places')
  {
    ServedAllStay(w, log, log1, k, false);
    ServedAllStay(w, log1, log', k, true);
  }

  lemma ServedByDescriptor(w: Walk, log: seq<Event>)
    requires w.Valid() && (forall id :: id in w.heap ==> id in w.list)
    requires forall j, write :: 0 <= j < |w.list| ==> Served(w, log, j, write)
    ensures forall fd, write :: Expected(w, log, fd, write) ==> Ran(log, fd, write, w.registry[fd])
  {
    forall fd, write | Expected(w, log, fd, write)
      ensures Ran(log, fd, write, w.registry[fd])
    {
      assert Owned(w.heap, fd);
      var id :| id in w.heap && !w.heap[id].deleted && w.heap[id].fd == fd;
      var j :| 0 <= j < |w.list| && w.list[j] == id;
      assert Served(w, log, j, write);
    }
  }

  lemma RepresentsFreed(heap: map<nat, Node>, registry: map<int, Registration>, id: nat)
    requires Represents(heap, registry) && id in heap && heap[id].deleted
    ensures Represents(heap - {id}, registry)
  {
    var heap' := heap - {id};
    forall fd | fd in registry
      ensures Owned(heap', fd)
    {
      assert Owned(heap, fd);
      var i :| i in heap && !heap[i].deleted && heap[i].fd == fd;
      assert i in heap';
    }
  }

  /** The node after the one reached is the next of those at the start. */
  lemma MidwayNext(w: Walk, k: nat, list: seq<nat>, heap: map<nat, Node>, calls: seq<Call>, i: nat)
    requires w.Valid() && k < |w.list| && Midway(w, k, list, heap, calls)
    requires Distinct(list) && i < |list| && list[i] == w.list[k]
    ensures i == |list| + k - |w.list|
    ensures i + 1 < |list| ==> list[i + 1] == w.list[k + 1]
    ensures w.list[k] in heap
    ensures !heap[w.list[k]].deleted ==> Midway(w, k + 1, list, heap, calls)
  {
    assert Kept(w, k, heap, calls) && Alike(list, w.list, k);
    var m := |list| + k - |w.list|;
    if i != m {
      OnceOnly(list, i, m);
    }
    assert i + 1 < |list| ==> Alike(list, w.list, k + 1);
    if !heap[w.list[k]].deleted {
      AheadNext(w, k);
      assert Accounted(heap, w.list[k], calls);
    }
  }

  lemma AheadNext(w: Walk, k: nat)
    requires k < |w.list|
    ensures forall id :: Ahead(w, k, id) <==> Ahead(w, k + 1, id) || id == w.list[k]
  {
  }

  lemma MidwayFreed(w: Walk, k: nat, list: seq<nat>, heap: map<nat, Node>, calls: seq<Call>, i: nat)
    requires w.Valid() && k < |w.list| && Midway(w, k, list, heap, calls)
    requires Distinct(list) && i == |list| + k - |w.list| && list[i] == w.list[k]
    ensures Midway(w, k + 1, list[..i] + list[i + 1..], heap - {list[i]}, calls)
  {
    var heap', list' := heap - {list[i]}, list[..i] + list[i + 1..];
    forall j: nat | k + 1 <= j < |w.list|
      ensures Kept(w, j, heap', calls) && Alike(list', w.list, j)
    {
      assert Kept(w, j, heap, calls) && Alike(list, w.list, j) && Apart(list, i, i + j - k);
    }
    AheadNext(w, k);
    forall id | id in heap' && !Ahead(w, k + 1, id)
      ensures Accounted(heap', id, calls)
    {
      assert Accounted(heap, id, calls);
    }
  }

  /** What has become of node `j`, which the walk has moved on from with `mark` events in the log: it is freed
      exactly if it was marked by then, and otherwise is marked exactly if it was removed later. */
  ghost predicate Past(w: Walk, j: nat, heap: map<nat, Node>, log: seq<Event>, mark: nat)
    requires w.Valid() && j < |w.list| && mark <= |log|
  {
    var id, node := w.list[j], w.At(j);
    && (id in heap <==> !node.deleted && !RemovedIn(Calls(log[..mark]), node.fd))
    && (id in heap ==>
          && heap[id].fd == node.fd && (heap[id].deleted <==> RemovedIn(Calls(log), node.fd))
          && (!SetIn(Calls(log), node.fd) ==> heap[id].reg == node.reg))
  }

  /** The same for all nodes visited. `marks[j]` counts the events up to node `j`. */
  ghost predicate Behind(w: Walk, k: nat, heap: map<nat, Node>, nextId: nat, log: seq<Event>, places: seq<nat>,
                         marks: seq<nat>)
    requires w.Valid() && k <= |w.list|
  {
    && |marks| == k && |places| == |log|
    && (forall j {:trigger w.list[j]} :: 0 <= j < |w.list| ==> w.list[j] < nextId)
    && (forall j: nat {:trigger marks[j]} :: j < k ==> marks[j] <= |log| && forall e :: 0 <= e < marks[j] ==>
          places[e] <= j)
    && (forall j: nat {:trigger Past(w, j, heap, log, marks[j])} :: j < k ==> Past(w, j, heap, log, marks[j]))
  }

  lemma PastChanged(w: Walk, j: nat, list: seq<nat>, heap: map<nat, Node>, nextId: nat, list': seq<nat>,
                    heap': map<nat, Node>, log: seq<Event>, log': seq<Event>, mark: nat, made: seq<Call>)
    requires w.Valid() && j < |w.list| && mark <= |log| && Past(w, j, heap, log, mark) && w.list[j] < nextId
    requires Changed(list, heap, nextId, list', heap', made) && log <= log' && Calls(log') == Calls(log) + made
    ensures Past(w, j, heap', log', mark)
  {
    var id, fd := w.list[j], w.At(j).fd;
    assert log'[..mark] == log[..mark];
    RemovedInConcat(Calls(log), made, fd);
    SetInConcat(Calls(log), made, fd);
    if id in heap {
      assert Marked(heap, heap', id, made);
    } else {
      assert id in heap' ==> Younger(id, nextId);
    }
  }

  lemma BehindChanged(w: Walk, k: nat, list: seq<nat>, heap: map<nat, Node>, nextId: nat, list': seq<nat>,
                      heap': map<nat, Node>, nextId': nat, log: seq<Event>, log': seq<Event>, places: seq<nat>,
                      places': seq<nat>, marks: seq<nat>, made: seq<Call>)
    requires w.Valid() && k <= |w.list| && Behind(w, k, heap, nextId, log, places, marks) && nextId <= nextId'
    requires Changed(list, heap, nextId, list', heap', made) && log <= log' && Calls(log') == Calls(log) + made
    requires places <= places' && |places'| == |log'|
    ensures Behind(w, k, heap', nextId', log', places', marks)
  {
    forall j: nat | j < k
      ensures Past(w, j, heap', log', marks[j])
    {
      assert Past(w, j, heap, log, marks[j]);
      PastChanged(w, j, list, heap, nextId, list', heap', log, log', marks[j], made);
    }
  }

  lemma BehindNext(w: Walk, k: nat, heap: map<nat, Node>, heap': map<nat, Node>, nextId: nat, log: seq<Event>,
                   places: seq<nat>, marks: seq<nat>)
    requires w.Valid() && k < |w.list| && Behind(w, k, heap, nextId, log, places, marks) && Distinct(w.list)
    requires w.list[k] in heap && Kept(w, k, heap, Calls(log)) && Before(log, places, Turn(k + 1, false))
    requires heap' == if heap[w.list[k]].deleted then heap - {w.list[k]} else heap
    ensures Behind(w, k + 1, heap', nextId, log, places, marks + [|log|])
  {
    var marks' := marks + [|log|];
    forall j: nat | j < k + 1
      ensures Past(w, j, heap', log, marks'[j])
    {
      if j < k {
        assert Past(w, j, heap, log, marks[j]);
        assert Apart(w.list, j, k);
      } else {
        assert log[..|log|] == log;
      }
    }
    forall e | 0 <= e < |log|
      ensures places[e] <= k
    {
      assert Turn(places[e], log[e].write) < Turn(k + 1, false);
    }
  }

  function NodeAt(list: seq<nat>, k: nat): Option<nat> {
    if k < |list| then Some(list[k]) else None
  }

  /** What a node's io_flush says, should it be asked: whether requests are pending, and the calls that it
      makes meanwhile. */
  datatype Answer = Answer(pending: bool, made: seq<Call>)

  /** Whether a node puts its descriptor into the set to wait for. */
  predicate Polled(node: Node, write: bool, a: Answer) {
    && (node.reg.flush.None? || a.pending) && !node.deleted
    && if write then node.reg.write.Some? else node.reg.read.Some?
  }

  /** `fds` is exactly what the first `k` nodes put into it. */
  ghost predicate Collected(list: seq<nat>, heap: map<nat, Node>, k: nat, write: bool, answer: nat -> Answer,
                            fds: set<int>)
    requires k <= |list| && forall id :: id in list ==> id in heap
  {
    && (forall j: nat :: j < k && Polled(heap[list[j]], write, answer(j)) ==> heap[list[j]].fd in fds)
    && (forall fd :: fd in fds ==>
          exists j: nat :: j < k && Polled(heap[list[j]], write, answer(j)) && heap[list[j]].fd == fd)
  }

  /** Everyone who has an io_flush, in the order of the list, whether deleted or not. */
  function Flushers(list: seq<nat>, heap: map<nat, Node>): (r: seq<Handler>)
    requires forall id :: id in list ==> id in heap
  {
    if list == [] then []
    else
      var n := |list| - 1;
      var node := heap[list[n]];
      Flushers(list[..n], heap) + FlusherOf(node)
  }

  function FlusherOf(node: Node): seq<Handler> {
    if node.reg.flush.Some? then [node.reg.flush.value] else []
  }

  /** Everyone registered who has an io_flush. */
  function LiveFlushers(list: seq<nat>, heap: map<nat, Node>): (r: seq<Handler>)
    requires forall id :: id in list ==> id in heap
  {
    if list == [] then []
    else
      var n := |list| - 1;
      var node := heap[list[n]];
      LiveFlushers(list[..n], heap) + if node.deleted then [] else FlusherOf(node)
  }

  /** Only those registered are asked, if and only if no marked node has an io_flush. */
  lemma {:induction false} OnlyLiveAsked(list: seq<nat>, heap: map<nat, Node>)
    requires forall id :: id in list ==> id in heap
    ensures |LiveFlushers(list, heap)| <= |Flushers(list, heap)|
    ensures Flushers(list, heap) == LiveFlushers(list, heap)
       <==> forall i :: 0 <= i < |list| && heap[list[i]].deleted ==> heap[list[i]].reg.flush.None?
    decreases |list|
  {
    if list != [] {
      var n := |list| - 1;
      OnlyLiveAsked(list[..n], heap);
      OnlyLiveFurther(list[..n], list[n], heap);
      assert list == list[..n] + [list[n]];
    }
  }

  lemma OnlyLiveFurther(front: seq<nat>, last: nat, heap: map<nat, Node>)
    requires forall id :: id in front + [last] ==> id in heap
    requires |LiveFlushers(front, heap)| <= |Flushers(front, heap)|
    ensures var list := front + [last];
            && |LiveFlushers(list, heap)| <= |Flushers(list, heap)|
            && (Flushers(list, heap) == LiveFlushers(list, heap)
                <==> (Flushers(front, heap) == LiveFlushers(front, heap)
                      && (heap[last].deleted ==> heap[last].reg.flush.None?)))
  {
    var list, x, y := front + [last], Flushers(front, heap), LiveFlushers(front, heap);
    assert list[..|list| - 1] == front && list[|list| - 1] == last;
    assert last in list;
    var z := FlusherOf(heap[last]);
    assert Flushers(list, heap) == x + z;
    assert LiveFlushers(list, heap) == y + if heap[last].deleted then [] else z;
    if |x| == |y| {
      assert (x + z)[..|x|] == x && (y + z)[..|y|] == y;
    }
  }

  /** The first `k` answers come without calls. */
  ghost predicate Quiet(answer: nat -> Answer, k: nat) {
    forall j: nat :: j < k ==> answer(j).made == []
  }

  ghost predicate Undisturbed(w: Walk, k: nat, answer: nat -> Answer, list: seq<nat>, heap: map<nat, Node>,
                              asked: seq<Handler>, rd: set<int>, wr: set<int>)
    requires w.Valid() && k <= |w.list|
  {
    Quiet(answer, k) ==>
      && heap == w.heap && list == w.list
      && asked == Flushers(w.list[..k], w.heap)
      && Collected(w.list, w.heap, k, false, answer, rd) && Collected(w.list, w.heap, k, true, answer, wr)
  }

  lemma CollectedNext(list: seq<nat>, heap: map<nat, Node>, k: nat, write: bool, answer: nat -> Answer, fds: set<int>)
    requires k < |list| && (forall id :: id in list ==> id in heap) && Collected(list, heap, k, write, answer, fds)
    ensures var fds' := if Polled(heap[list[k]], write, answer(k)) then fds + {heap[list[k]].fd} else fds;
            Collected(list, heap, k + 1, write, answer, fds')
  {
  }

  /** A node that was there from the start and is not deleted was registered at the start. */
  lemma StillRegistered(w: Walk, k: nat, list: seq<nat>, heap: map<nat, Node>, nextId: nat, calls: seq<Call>)
    requires w.Valid() && k < |w.list| && Changed(w.list, w.heap, nextId, list, heap, calls)
    ensures w.list[k] in w.heap && w.list[k] in heap
    ensures !heap[w.list[k]].deleted ==> heap[w.list[k]].fd in w.registry
  {
    assert w.list[k] in w.list;
    assert Marked(w.heap, heap, w.list[k], calls);
  }

  lemma UndisturbedNext(w: Walk, k: nat, answer: nat -> Answer, asked: seq<Handler>, rd: set<int>, wr: set<int>,
                        rd': set<int>, wr': set<int>)
    requires w.Valid() && k < |w.list| && Quiet(answer, k + 1)
    requires Undisturbed(w, k, answer, w.list, w.heap, asked, rd, wr)
    requires rd' == if Polled(w.At(k), false, answer(k)) then rd + {w.At(k).fd} else rd
    requires wr' == if Polled(w.At(k), true, answer(k)) then wr + {w.At(k).fd} else wr
    ensures Undisturbed(w, k + 1, answer, w.list, w.heap, asked + FlusherOf(w.At(k)), rd', wr')
  {
    assert Quiet(answer, k);
    CollectedNext(w.list, w.heap, k, false, answer, rd);
    CollectedNext(w.list, w.heap, k, true, answer, wr);
    FlushersNext(w.list, w.heap, k);
  }

  lemma FlushersNext(list: seq<nat>, heap: map<nat, Node>, k: nat)
    requires k < |list| && forall id :: id in list ==> id in heap
    ensures Flushers(list[..k + 1], heap) == Flushers(list[..k], heap) + FlusherOf(heap[list[k]])
  {
    assert list[..k + 1][..k] == list[..k];
  }

  class AioContext {
    /** The memory of the nodes: a node that has been freed is not in it. */
    var heap: map<nat, Node>
    /** The list, from its head on. */
    var list: seq<nat>
    var nextId: nat
    var walking: bool
    /** What is registered. */
    ghost var registry: map<int, Registration>

    constructor ()
      ensures Valid() && !walking && registry == map[] && list == [] && heap == map[] && nextId == 0
    {
      heap, list, nextId, walking, registry := map[], [], 0, false, map[];
    }

    ghost predicate Valid()
      reads this
    {
      WellLinked(list, heap, nextId) && Represents(heap, registry)
    }

    /** find_aio_handler: the live node of a descriptor. */
    method Find(fd: int) returns (r: Option<nat>)
      requires Valid()
      ensures r.Some? ==> r.value in list && !heap[r.value].deleted && heap[r.value].fd == fd
      ensures r.Some? <==> fd in registry
    {
      for i := 0 to |list|
        invariant forall j :: 0 <= j < i ==> !(heap[list[j]].fd == fd && !heap[list[j]].deleted)
      {
        assert list[i] in list;
        if heap[list[i]].fd == fd {
          if !heap[list[i]].deleted {
            return Some(list[i]);
          }
        }
      }
      assert fd in registry ==> Owned(heap, fd);
      return None;
    }

    /** qemu_aio_set_fd_handler: the registry changes as the call says, whether a node is unlinked at once
        or only marked because the list is being walked. */
    method SetFdHandler(c: Call)
      requires Valid()
      modifies this`heap, this`list, this`nextId, this`registry
      ensures Valid() && registry == Apply(old(registry), c)
      ensures c.fd in registry <==> c.reg.read.Some? || c.reg.write.Some?
      ensures c.fd in registry ==> registry[c.fd] == c.reg
      ensures forall fd :: fd != c.fd ==> (fd in registry <==> fd in old(registry))
      ensures forall fd :: fd != c.fd && fd in registry ==> registry[fd] == old(registry)[fd]
      ensures walking ==> Changed(old(list), old(heap), old(nextId), list, heap, [c])
      ensures nextId >= old(nextId)
      ensures !Removes(c) && c.fd !in old(registry) ==>
                && list == [old(nextId)] + old(list) && nextId == old(nextId) + 1
                && heap == old(heap)[old(nextId) := Node(c.fd, c.reg, false)]
    {
      var node := Find(c.fd);
      if Removes(c) {
        if node.Some? {
          Drop(node.value, c);
        } else {
          RepresentsAbsent(heap, registry, c);
          registry := Apply(registry, c);
          ChangedNot(list, heap, nextId, c, old(registry));
        }
      } else {
        Set(node, c);
      }
    }

    /** The branch that deletes. */
    method Drop(id: nat, c: Call)
      requires Valid() && id in heap && !heap[id].deleted && heap[id].fd == c.fd && Removes(c)
      modifies this`heap, this`list, this`registry
      ensures Valid() && registry == Apply(old(registry), c)
      ensures walking ==> Changed(old(list), old(heap), nextId, list, heap, [c])
    {
      if walking {
        heap := heap[id := heap[id].(deleted := true)];
        ChangedDropped(list, old(heap), nextId, id, c);
      } else {
        Unlink(id);
      }
      registry := Apply(registry, c);
      RepresentsDropped(old(heap), old(registry), id, heap, c);
    }

    /** The branch that registers. */
    method Set(node: Option<nat>, c: Call)
      requires Valid() && !Removes(c) && (node.None? <==> c.fd !in registry)
      requires node.Some? ==> node.value in heap && !heap[node.value].deleted && heap[node.value].fd == c.fd
      modifies this`heap, this`list, this`nextId, this`registry
      ensures Valid() && registry == Apply(old(registry), c)
      ensures Changed(old(list), old(heap), old(nextId), list, heap, [c])
      ensures nextId >= old(nextId)
      ensures !Removes(c) && c.fd !in old(registry) ==>
                && list == [old(nextId)] + old(list) && nextId == old(nextId) + 1
                && heap == old(heap)[old(nextId) := Node(c.fd, c.reg, false)]
    {
      var id := if node.None? then nextId else node.value;
      RepresentsSet(heap, registry, id, c);
      ChangedSet(list, heap, nextId, id, c);
      registry := Apply(registry, c);
      if node.None? {
        Insert(c);
      } else {
        heap := heap[id := heap[id].(reg := c.reg)];
        assert heap[id] == Node(c.fd, c.reg, false);
      }
    }

    /** LIST_REMOVE and qemu_free. */
    method Unlink(id: nat)
      requires WellLinked(list, heap, nextId) && id in list
      modifies this`heap, this`list
      ensures WellLinked(list, heap, nextId) && heap == old(heap) - {id}
      ensures forall i :: 0 <= i < |old(list)| && old(list)[i] == id ==> list == old(list)[..i] + old(list)[i + 1..]
    {
      var i := Position(id);
      list := list[..i] + list[i + 1..];
      heap := heap - {id};
      forall p: nat, q: nat | p < q < |list|
        ensures Apart(list, p, q)
      {
        assert Apart(old(list), if p < i then p else p + 1, if q < i then q else q + 1);
      }
      forall p: nat | p < |list|
        ensures list[p] != id
      {
        OnceOnly(old(list), if p < i then p else p + 1, i);
      }
      forall x
        ensures x in list <==> x in heap
      {
        if x in old(list) && x != id {
          var j :| 0 <= j < |old(list)| && old(list)[j] == x;
          assert list[if j < i then j else j - 1] == x;
        }
      }
    }

    method Position(id: nat) returns (i: nat)
      requires id in list
      ensures i < |list| && list[i] == id
    {
      i := 0;
      while list[i] != id
        invariant exists j :: i <= j < |list| && list[j] == id
        decreases |list| - i
      {
        i := i + 1;
      }
    }

    /** The allocation of a node and LIST_INSERT_HEAD. */
    method Insert(c: Call)
      requires WellLinked(list, heap, nextId)
      modifies this`heap, this`list, this`nextId
      ensures WellLinked(list, heap, nextId) && nextId == old(nextId) + 1
      ensures list == [old(nextId)] + old(list)
      ensures heap == old(heap)[old(nextId) := Node(c.fd, c.reg, false)]
    {
      heap := heap[nextId := Node(c.fd, c.reg, false)];
      list := [nextId] + list;
      nextId := nextId + 1;
      forall x
        ensures x in list <==> x in heap
      {
        assert list[0] == old(nextId) && list[1..] == old(list);
      }
      forall i | 0 <= i < |old(list)|
        ensures list[i + 1] == old(list)[i] && list[i + 1] < old(nextId)
      {
        assert old(list)[i] in old(list);
      }
      forall p: nat, q: nat | p < q < |list|
        ensures Apart(list, p, q)
      {
        assert p > 0 ==> Apart(old(list), p - 1, q - 1);
      }
    }

    /** A callback: it makes any calls it likes, one after the other. */
    method React(calls: seq<Call>)
      requires Valid() && walking
      modifies this`heap, this`list, this`nextId, this`registry
      ensures Valid() && registry == ApplyAll(old(registry), calls)
      ensures Changed(old(list), old(heap), old(nextId), list, heap, calls)
      ensures nextId >= old(nextId)
      ensures calls == [] ==> heap == old(heap) && list == old(list)
    {
      assert calls[..0] == [];
      for i := 0 to |calls|
        invariant Valid() && walking && nextId >= old(nextId)
        invariant i == 0 ==> heap == old(heap) && list == old(list)
        invariant registry == ApplyAll(old(registry), calls[..i])
        invariant Changed(old(list), old(heap), old(nextId), list, heap, calls[..i])
      {
        ghost var list1, heap1, nextId1 := list, heap, nextId;
        SetFdHandler(calls[i]);
        ChangedTwice(old(list), old(heap), old(nextId), list1, heap1, nextId1, list, heap, calls[..i], [calls[i]]);
        assert calls[..i + 1] == calls[..i] + [calls[i]];
      }
      assert calls[..|calls|] == calls;
    }

    /** One of the two tests in the body of the walk. */
    method Deliver(id: nat, write: bool, ready: set<int>, react: seq<Event> -> seq<Call>, log: seq<Event>)
      returns (log': seq<Event>, ghost made: seq<Call>)
      requires Valid() && walking && id in heap
      modifies this`heap, this`list, this`nextId, this`registry
      ensures Valid() && nextId >= old(nextId)
      ensures Changed(old(list), old(heap), old(nextId), list, heap, made)
      ensures registry == ApplyAll(old(registry), made)
      ensures var node := old(heap)[id];
              if Fires(node, write, ready)
              then log' == log + [Event(node.fd, write, On(node.reg, write).value, node.reg.opaq, made)]
                && made == react(log)
              else log' == log && made == []
    {
      log', made := log, [];
      var node := heap[id];
      if !node.deleted && node.fd in ready && On(node.reg, write).Some? {
        var calls := react(log);
        made := calls;
        React(calls);
        log' := log + [Event(node.fd, write, On(node.reg, write).value, node.reg.opaq, calls)];
      }
    }

    /** A test in the body of the walk, as a step of the whole walk. */
    method Advance(ghost w: Walk, ghost k: nat, id: nat, write: bool, ready: set<int>, react: seq<Event> -> seq<Call>,
                   log: seq<Event>, ghost places: seq<nat>)
      returns (log': seq<Event>, ghost places': seq<nat>, ghost made: seq<Call>)
      requires w.Valid() && Valid() && walking && k < |w.list| && id == w.list[k] && ready == w.Ready(write)
      requires Midway(w, k, list, heap, Calls(log)) && registry == ApplyAll(w.registry, Calls(log))
      requires Traced(w, log, places) && Before(log, places, Turn(k, write)) && Prompted(log, react)
      modifies this`heap, this`list, this`nextId, this`registry
      ensures Valid() && nextId >= old(nextId) && Changed(old(list), old(heap), old(nextId), list, heap, made)
      ensures Midway(w, k, list, heap, Calls(log')) && registry == ApplyAll(w.registry, Calls(log'))
      ensures Traced(w, log', places') && Before(log', places', Turn(k, write) + 1) && Prompted(log', react)
      ensures Continues(log, log', places, places', made)
      ensures Served(w, log', k, write)
    {
      assert Kept(w, k, heap, Calls(log));
      log', made := Deliver(id, write, ready, react, log);
      MidwayChanged(w, k, old(list), old(heap), old(nextId), Calls(log), list, heap, made);
      ApplyAllConcat(w.registry, Calls(log), made);
      ServedNow(w, k, old(list), old(heap), old(registry), log, write, made, log');
      if Fires(old(heap)[id], write, ready) {
        places' := LogGrows(w, k, old(list), old(heap), old(registry), log, places, write, made, log');
        PromptedMore(log, log'[|log|], react);
      } else {
        places' := places;
        assert Calls(log) + made == Calls(log);
      }
    }

    ghost predicate InWalk(w: Walk, k: nat, log: seq<Event>, places: seq<nat>, marks: seq<nat>,
                           react: seq<Event> -> seq<Call>)
      reads this
    {
      && Valid() && walking && w.Valid() && k <= |w.list| && Visited(w, k, log, places)
      && Midway(w, k, list, heap, Calls(log)) && registry == ApplyAll(w.registry, Calls(log))
      && Behind(w, k, heap, nextId, log, places, marks) && Prompted(log, react)
    }

    method Body(ghost w: Walk, ghost k: nat, id: nat, rd: set<int>, wr: set<int>, react: seq<Event> -> seq<Call>,
                log: seq<Event>, ghost places: seq<nat>, ghost marks: seq<nat>)
      returns (next: Option<nat>, log': seq<Event>, ghost places': seq<nat>, ghost marks': seq<nat>)
      requires InWalk(w, k, log, places, marks, react) && k < |w.list| && id == w.list[k] && rd == w.rd && wr == w.wr
      modifies this`heap, this`list, this`nextId, this`registry
      ensures InWalk(w, k + 1, log', places', marks', react)
      ensures next == NodeAt(w.list, k + 1)
    {
      ghost var made;
      log', places', made := Visit(w, k, id, rd, wr, react, log, places);
      BehindChanged(w, k, old(list), old(heap), old(nextId), list, heap, nextId, log, log', places, places', marks,
                    made);
      ghost var heap1 := heap;
      next := MoveOn(w, k, id, Calls(log'));
      BehindNext(w, k, heap1, heap, nextId, log', places', marks);
      marks' := marks + [|log'|];
    }

    /** The body of the walk up to the point where it moves on. */
    method Visit(ghost w: Walk, ghost k: nat, id: nat, rd: set<int>, wr: set<int>, react: seq<Event> -> seq<Call>,
                 log: seq<Event>, ghost places: seq<nat>)
      returns (log': seq<Event>, ghost places': seq<nat>, ghost made: seq<Call>)
      requires w.Valid() && Valid() && walking && k < |w.list| && id == w.list[k] && rd == w.rd && wr == w.wr
      requires Midway(w, k, list, heap, Calls(log)) && registry == ApplyAll(w.registry, Calls(log))
      requires Visited(w, k, log, places) && Prompted(log, react)
      modifies this`heap, this`list, this`nextId, this`registry
      ensures Valid() && nextId >= old(nextId) && Changed(old(list), old(heap), old(nextId), list, heap, made)
      ensures Midway(w, k, list, heap, Calls(log')) && registry == ApplyAll(w.registry, Calls(log'))
      ensures Visited(w, k + 1, log', places') && Prompted(log', react)
      ensures log <= log' && places <= places' && Calls(log') == Calls(log) + made
    {
      var log1;
      ghost var places1, made1, made2;
      log1, places1, made1 := Advance(w, k, id, false, rd, react, log, places);
      ghost var list1, heap1, nextId1 := list, heap, nextId;
      log', places', made2 := Advance(w, k, id, true, wr, react, log1, places1);
      made := made1 + made2;
      ChangedTwice(old(list), old(heap), old(nextId), list1, heap1, nextId1, list, heap, made1, made2);
      VisitedNext(w, k, log, places, log1, log', places');
      Regroup(Calls(log), made1, made2);
    }

    /** The dispatch walk of qemu_aio_wait. It goes through the list as it was at the start, whatever the
        callbacks do to it; `heap` has no freed node, so every access is to a node that is still there. A node
        of the list is freed exactly if it was marked when the walk moved on from it. */
    method Dispatch(rd: set<int>, wr: set<int>, react: seq<Event> -> seq<Call>)
      returns (log: seq<Event>, ghost places: seq<nat>, ghost marks: seq<nat>)
      requires Valid() && !walking
      modifies this
      ensures Valid() && !walking
      ensures registry == ApplyAll(old(registry), Calls(log))
      ensures var w := Walk(old(list), old(heap), old(registry), rd, wr);
              && w.Valid() && Traced(w, log, places) && Prompted(log, react)
              && (forall fd, write :: Expected(w, log, fd, write) ==> Ran(log, fd, write, w.registry[fd]))
              && Behind(w, |w.list|, heap, nextId, log, places, marks)
      ensures forall id :: id in heap && heap[id].deleted ==> RemovedIn(Calls(log), heap[id].fd)
    {
      ghost var w := Walk(list, heap, registry, rd, wr);
      walking := true;
      forall j | 0 <= j < |list|
        ensures list[j] < nextId
      {
        assert list[j] in list;
      }
      log, places, marks := Through(w, rd, wr, react);
      walking := false;
      ServedByDescriptor(w, log);
      forall id | id in heap
        ensures Accounted(heap, id, Calls(log))
      {
      }
    }

    /** The loop of the walk. */
    method Through(ghost w: Walk, rd: set<int>, wr: set<int>, react: seq<Event> -> seq<Call>)
      returns (log: seq<Event>, ghost places: seq<nat>, ghost marks: seq<nat>)
      requires InWalk(w, 0, [], [], [], react) && rd == w.rd && wr == w.wr && list == w.list
      modifies this`heap, this`list, this`nextId, this`registry
      ensures InWalk(w, |w.list|, log, places, marks, react)
    {
      log, places, marks := [], [], [];
      var node := if list == [] then None else Some(list[0]);
      ghost var k := 0;
      while node.Some?
        invariant k <= |w.list| && node == NodeAt(w.list, k)
        invariant InWalk(w, k, log, places, marks, react)
        decreases |w.list| - k
      {
        node, log, places, marks := Body(w, k, node.value, rd, wr, react, log, places, marks);
        k := k + 1;
      }
    }

    /** The end of the body: the next node is taken before the current one may be freed. */
    method MoveOn(ghost w: Walk, ghost k: nat, id: nat, ghost calls: seq<Call>) returns (next: Option<nat>)
      requires w.Valid() && Valid() && k < |w.list| && id == w.list[k] && Midway(w, k, list, heap, calls)
      modifies this`heap, this`list
      ensures Valid() && Midway(w, k + 1, list, heap, calls)
      ensures id in old(heap) && heap == if old(heap)[id].deleted then old(heap) - {id} else old(heap)
      ensures next == NodeAt(w.list, k + 1)
    {
      assert Kept(w, k, heap, calls);
      var i := Position(id);
      MidwayNext(w, k, list, heap, calls, i);
      next := if i + 1 < |list| then Some(list[i + 1]) else None;
      if heap[id].deleted {
        RepresentsFreed(heap, registry, id);
        MidwayFreed(w, k, list, heap, calls, i);
        Unlink(id);
      }
    }

    /** The walk of qemu_aio_wait that fills the descriptor sets. Each descriptor in them was registered when
        the walk began. If the callbacks leave the list alone, the sets are exactly those of the registered
        handlers with requests pending, but io_flush is asked of deleted nodes as well. */
    method Fill(answer: nat -> Answer) returns (rd: set<int>, wr: set<int>, asked: seq<Handler>, ghost calls: seq<Call>)
      requires Valid() && !walking
      modifies this
      ensures Valid() && !walking
      ensures registry == ApplyAll(old(registry), calls)
      ensures Changed(old(list), old(heap), old(nextId), list, heap, calls)
      ensures forall fd :: fd in rd || fd in wr ==> fd in old(registry)
      ensures forall id :: id in list ==> id in heap
      ensures Quiet(answer, |old(list)|) ==>
                && heap == old(heap) && list == old(list)
                && asked == Flushers(list, heap)
                && Collected(list, heap, |list|, false, answer, rd) && Collected(list, heap, |list|, true, answer, wr)
    {
      ghost var w := Walk(list, heap, registry, {}, {});
      walking := true;
      rd, wr, asked, calls := FillFrom(w, answer);
      walking := false;
      assert w.list[..|w.list|] == w.list;
    }

    ghost predicate Filling(w: Walk, nextId0: nat, k: nat, calls: seq<Call>, fds: set<int>)
      reads this
    {
      && Valid() && walking && w.Valid() && k <= |w.list|
      && Changed(w.list, w.heap, nextId0, list, heap, calls) && nextId >= nextId0
      && registry == ApplyAll(w.registry, calls) && fds <= w.registry.Keys
    }

    method FillFrom(ghost w: Walk, answer: nat -> Answer)
      returns (rd: set<int>, wr: set<int>, asked: seq<Handler>, ghost calls: seq<Call>)
      requires Filling(w, nextId, 0, [], {}) && list == w.list && heap == w.heap
      modifies this`heap, this`list, this`nextId, this`registry
      ensures Filling(w, old(nextId), |w.list|, calls, rd + wr)
      ensures Undisturbed(w, |w.list|, answer, list, heap, asked, rd, wr)
    {
      rd, wr, asked, calls := {}, {}, [], [];
      var node := if list == [] then None else Some(list[0]);
      var k := 0;
      while node.Some?
        invariant Filling(w, old(nextId), k, calls, rd + wr) && node == NodeAt(w.list, k)
        invariant Undisturbed(w, k, answer, list, heap, asked, rd, wr)
        decreases |w.list| - k
      {
        StillRegistered(w, k, list, heap, old(nextId), calls);
        rd, wr, asked, calls := FillOne(w, old(nextId), k, node.value, answer, rd, wr, asked, calls);
        node := After(w, k, node.value, old(nextId), calls);
        k := k + 1;
      }
    }

    /** io_flush of a node, if it has one. */
    method Ask(id: nat, a: Answer) returns (skip: bool, asked: seq<Handler>, ghost made: seq<Call>)
      requires Valid() && walking && id in heap
      modifies this`heap, this`list, this`nextId, this`registry
      ensures Valid() && nextId >= old(nextId)
      ensures Changed(old(list), old(heap), old(nextId), list, heap, made) && registry == ApplyAll(old(registry), made)
      ensures skip == (old(heap)[id].reg.flush.Some? && !a.pending)
      ensures asked == FlusherOf(old(heap)[id])
      ensures a.made == [] ==> made == [] && heap == old(heap) && list == old(list)
    {
      skip, asked, made := false, FlusherOf(heap[id]), [];
      if heap[id].reg.flush.Some? {
        made := a.made;
        React(a.made);
        skip := !a.pending;
      }
    }

    /** As a step of the whole walk. */
    method AskOne(ghost w: Walk, ghost nextId0: nat, ghost k: nat, id: nat, a: Answer, ghost fds: set<int>,
                  ghost calls: seq<Call>)
      returns (skip: bool, asked: seq<Handler>, ghost calls': seq<Call>)
      requires Filling(w, nextId0, k, calls, fds) && id in heap
      modifies this`heap, this`list, this`nextId, this`registry
      ensures Filling(w, nextId0, k, calls', fds)
      ensures skip == (old(heap)[id].reg.flush.Some? && !a.pending)
      ensures asked == FlusherOf(old(heap)[id])
      ensures a.made == [] ==> heap == old(heap) && list == old(list)
    {
      ghost var made;
      skip, asked, made := Ask(id, a);
      ChangedTwice(w.list, w.heap, nextId0, old(list), old(heap), old(nextId), list, heap, calls, made);
      ApplyAllConcat(w.registry, calls, made);
      calls' := calls + made;
    }

    method FillOne(ghost w: Walk, ghost nextId0: nat, k: nat, id: nat, answer: nat -> Answer, rd: set<int>,
                   wr: set<int>, asked: seq<Handler>, ghost calls: seq<Call>)
      returns (rd': set<int>, wr': set<int>, asked': seq<Handler>, ghost calls': seq<Call>)
      requires Filling(w, nextId0, k, calls, rd + wr) && k < |w.list| && id == w.list[k]
      requires id in heap && Undisturbed(w, k, answer, list, heap, asked, rd, wr)
      modifies this`heap, this`list, this`nextId, this`registry
      ensures Filling(w, nextId0, k + 1, calls', rd' + wr')
      ensures Undisturbed(w, k + 1, answer, list, heap, asked', rd', wr')
    {
      var skip, flusher;
      skip, flusher, calls' := AskOne(w, nextId0, k, id, answer(k), rd + wr, calls);
      asked', rd', wr' := asked + flusher, rd, wr;
      StillRegistered(w, k, list, heap, nextId0, calls');
      if !skip {
        if !heap[id].deleted && heap[id].reg.read.Some? {
          rd' := rd + {heap[id].fd};
        }
        if !heap[id].deleted && heap[id].reg.write.Some? {
          wr' := wr + {heap[id].fd};
        }
      }
      if Quiet(answer, k + 1) {
        UndisturbedNext(w, k, answer, asked, rd, wr, rd', wr');
      }
    }

    /** LIST_NEXT on a list that has only grown in front. */
    method After(ghost w: Walk, ghost k: nat, id: nat, ghost nextId0: nat, ghost calls: seq<Call>)
      returns (next: Option<nat>)
      requires WellLinked(list, heap, nextId) && k < |w.list| && id == w.list[k]
      requires Changed(w.list, w.heap, nextId0, list, heap, calls)
      ensures next == NodeAt(w.list, k + 1)
    {
      ghost var d := |list| - |w.list|;
      assert Alike(list, w.list, k);
      var i := Position(id);
      if i != d + k {
        OnceOnly(list, i, d + k);
      }
      assert k + 1 < |w.list| ==> Alike(list, w.list, k + 1);
      next := if i + 1 < |list| then Some(list[i + 1]) else None;
    }
  }

  // ---------------------------------------------------------------- a removed handler that is asked

  const READER_1 := Registration(Some(10), None, Some(11), 0)
  const READER_2 := Registration(Some(20), None, Some(21), 0)
  const REMOVAL := Registration(None, None, None, 0)

  /** The callback that runs second removes descriptor 2; the others do nothing. */
  function RemoveSecond(log: seq<Event>): seq<Call> {
    if |log| == 1 then [Call(2, REMOVAL)] else []
  }

  /** The calls are at most that removal. */
  lemma {:induction false} OnlyRemoval(log: seq<Event>, i: nat)
    requires Prompted(log, RemoveSecond) && i < |Calls(log)|
    ensures |log| >= 2 && Calls(log)[i] == Call(2, REMOVAL)
    decreases |log|
  {
    if log != [] {
      var n := |log| - 1;
      PromptedSoFar(log, RemoveSecond, n);
      assert log[n].made == RemoveSecond(log[..n]);
      if i < |Calls(log[..n])| {
        OnlyRemoval(log[..n], i);
      }
    }
  }

  lemma PromptedSoFar(log: seq<Event>, react: seq<Event> -> seq<Call>, n: nat)
    requires Prompted(log, react) && n <= |log|
    ensures Prompted(log[..n], react)
  {
    forall e | 0 <= e < n
      ensures log[..n][e].made == react(log[..n][..e])
    {
      assert log[..n][..e] == log[..e];
    }
  }

  /** With two events, the removal is made. */
  lemma {:induction false} RemovalMade(log: seq<Event>)
    requires Prompted(log, RemoveSecond) && |log| >= 2
    ensures RemovedIn(Calls(log), 2)
    decreases |log|
  {
    var n := |log| - 1;
    PromptedSoFar(log, RemoveSecond, n);
    assert log[n].made == RemoveSecond(log[..n]);
    RemovedInConcat(Calls(log[..n]), log[n].made, 2);
    if |log| == 2 {
      assert log[n].made[0] == Call(2, REMOVAL);
    } else {
      RemovalMade(log[..n]);
    }
  }

  ghost predicate TwoReaders(w: Walk) {
    && w.list == [1, 0] && w.heap == map[0 := Node(1, READER_1, false), 1 := Node(2, READER_2, false)]
    && w.registry == map[1 := READER_1, 2 := READER_2] && w.rd == {1, 2} && w.wr == {}
  }

  lemma SecondRuns(w: Walk, log: seq<Event>)
    requires TwoReaders(w) && Prompted(log, RemoveSecond)
    requires forall fd, write :: Expected(w, log, fd, write) ==> Ran(log, fd, write, w.registry[fd])
    ensures |log| >= 2
  {
    forall i | 0 <= i < |Calls(log)|
      ensures |log| >= 2 && Calls(log)[i] == Call(2, REMOVAL)
    {
      OnlyRemoval(log, i);
    }
    assert Expected(w, log, 1, false);
    if |log| < 2 {
      assert Calls(log) == [];
      assert Expected(w, log, 2, false);
    }
  }

  /** The walk has moved on from the node of descriptor 2 with one event at most. */
  lemma OneEventFirst(w: Walk, log: seq<Event>, places: seq<nat>, mark: nat)
    requires w.Valid() && TwoReaders(w) && Traced(w, log, places) && mark <= |log|
    requires forall e :: 0 <= e < mark ==> places[e] <= 0
    ensures mark <= 1
  {
    if mark > 1 {
      assert Right(w, log, 0, places[0]) && Right(w, log, 1, places[1]);
      var first, second := Turn(places[0], log[0].write), Turn(places[1], log[1].write);
    }
  }

  lemma NoCallsYet(log: seq<Event>)
    requires Prompted(log, RemoveSecond) && |log| <= 1
    ensures Calls(log) == []
  {
    if |log| == 1 {
      assert log[0].made == RemoveSecond(log[..0]);
      assert Calls(log[..0]) == [];
    }
  }

  lemma MarkedNodeStays(w: Walk, heap: map<nat, Node>, nextId: nat, log: seq<Event>, places: seq<nat>, marks: seq<nat>)
    requires w.Valid() && TwoReaders(w) && Traced(w, log, places) && Prompted(log, RemoveSecond) && |log| >= 2
    requires Behind(w, 2, heap, nextId, log, places, marks)
    ensures 1 in heap && heap[1].deleted && heap[1].reg == READER_2
  {
    var m := marks[0];
    OneEventFirst(w, log, places, m);
    PromptedSoFar(log, RemoveSecond, m);
    NoCallsYet(log[..m]);
    forall i | 0 <= i < |Calls(log)|
      ensures Removes(Calls(log)[i])
    {
      OnlyRemoval(log, i);
    }
    RemovalMade(log);
    assert Past(w, 0, heap, log, m);
  }

  lemma NoLongerRegistered(registry: map<int, Registration>, log: seq<Event>)
    requires Prompted(log, RemoveSecond) && |log| >= 2
    ensures 2 !in ApplyAll(registry, Calls(log))
  {
    RemovalMade(log);
    OnlyRemoval(log, |Calls(log)| - 1);
  }

  lemma {:induction false} FlusherIsAsked(list: seq<nat>, heap: map<nat, Node>, id: nat)
    requires (forall i :: i in list ==> i in heap) && id in list && heap[id].reg.flush.Some?
    ensures heap[id].reg.flush.value in Flushers(list, heap)
    decreases |list|
  {
    var n := |list| - 1;
    if list[n] != id {
      assert list == list[..n] + [list[n]];
      FlusherIsAsked(list[..n], heap, id);
    }
  }

  /** Two descriptors are registered and both are ready. The walk runs the handler of descriptor 2 and moves
      on; then the handler of descriptor 1 removes descriptor 2. Its node stays, marked, and the next walk
      that fills the sets asks its io_flush, although it is no longer registered. */
  method RemovedIsAsked() returns (asked: seq<Handler>, registered: bool)
    ensures 21 in asked && !registered
  {
    var ctx := new AioContext();
    RegisterBoth(ctx);
    ghost var w := Walk(ctx.list, ctx.heap, ctx.registry, {1, 2}, {});
    var log;
    ghost var places, marks;
    log, places, marks := ctx.Dispatch({1, 2}, {}, RemoveSecond);
    SecondRuns(w, log);
    MarkedNodeStays(w, ctx.heap, ctx.nextId, log, places, marks);
    NoLongerRegistered(w.registry, log);
    var node := ctx.Find(2);
    registered := node.Some?;
    asked := FillQuietly(ctx, 1);
  }

  method RegisterBoth(ctx: AioContext)
    requires ctx.Valid() && !ctx.walking && ctx.registry == map[] && ctx.list == [] && ctx.heap == map[]
    requires ctx.nextId == 0
    modifies ctx
    ensures ctx.Valid() && !ctx.walking && TwoReaders(Walk(ctx.list, ctx.heap, ctx.registry, {1, 2}, {}))
  {
    ctx.SetFdHandler(Call(1, READER_1));
    ctx.SetFdHandler(Call(2, READER_2));
  }

  /** A walk that fills the sets, with nothing pending, asks the io_flush of a node whether marked or not. */
  method FillQuietly(ctx: AioContext, ghost id: nat) returns (asked: seq<Handler>)
    requires ctx.Valid() && !ctx.walking && id in ctx.heap && ctx.heap[id].reg.flush.Some?
    modifies ctx
    ensures old(ctx.heap)[id].reg.flush.value in asked
  {
    var rd, wr;
    ghost var calls;
    rd, wr, asked, calls := ctx.Fill(n => Answer(false, []));
    FlusherIsAsked(ctx.list, ctx.heap, id);
  }
}
