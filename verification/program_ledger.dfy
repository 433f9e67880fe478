/** The resource ledger of a program run: descriptors, streams, memory blocks and destructors are
    recorded as the wrappers acquire them and given back however the program ends.
    What the operating system answers to a call is part of the call. */
module ProgramLedger {

  import opened Options

  const EXIT_FAILURE := 1
  const NULL := 0

  datatype Kind = Descriptor | Stream | Block | Cleanup

  datatype Resource = Resource(kind: Kind, id: int)

  /** What happens to a resource in the operating system, or to a destructor. */
  datatype Event = Acquired(r: Resource) | Released(r: Resource)

  /** The lists of a struct rtems_bsd_program_control, newest entry first, and the events so far. */
  datatype Ledger = Ledger(fds: seq<int>, files: seq<int>, blocks: seq<int>, cleanups: seq<int>, trace: seq<Event>)

  const EMPTY := Ledger([], [], [], [], [])

  // ---- bookkeeping ------------------------------------------------------------------------

  function Tagged(kind: Kind, ids: seq<int>): (rs: seq<Resource>)
    ensures |rs| == |ids| && forall i | 0 <= i < |ids| :: rs[i] == Resource(kind, ids[i])
  {
    seq(|ids|, i requires 0 <= i < |ids| => Resource(kind, ids[i]))
  }

  /** Everything on the lists. */
  function Held(l: Ledger): multiset<Resource> {
    multiset(Tagged(Descriptor, l.fds)) + multiset(Tagged(Stream, l.files))
    + multiset(Tagged(Block, l.blocks)) + multiset(Tagged(Cleanup, l.cleanups))
  }

  function After(m: multiset<Resource>, e: Event): multiset<Resource> {
    if e.Acquired? then m + multiset{e.r} else m - multiset{e.r}
  }

  /** Everything acquired and not yet released. */
  function Outstanding(trace: seq<Event>): multiset<Resource> {
    if |trace| == 0 then multiset{} else After(Outstanding(trace[..|trace| - 1]), trace[|trace| - 1])
  }

  /** Nothing is released that is not outstanding: no double and no stray release. */
  predicate Sound(trace: seq<Event>) {
    forall i | 0 <= i < |trace| && trace[i].Released? :: trace[i].r in Outstanding(trace[..i])
  }

  /** What has been acquired and not yet released is on the lists or lost. */
  predicate Accounted(l: Ledger, lost: multiset<Resource>) {
    Sound(l.trace) && Held(l) + lost == Outstanding(l.trace)
  }

  /** The lists hold exactly what has been acquired and not yet released. */
  predicate Balanced(l: Ledger) { Accounted(l, multiset{}) }

  lemma Appended(trace: seq<Event>, e: Event)
    ensures Outstanding(trace + [e]) == After(Outstanding(trace), e)
    ensures Sound(trace + [e]) <==> Sound(trace) && (e.Released? ==> e.r in Outstanding(trace))
  {
    var t := trace + [e];
    assert t[..|trace|] == trace && t[|trace|] == e;
    assert forall i | 0 <= i < |trace| :: t[i] == trace[i];
    forall i | 0 <= i < |trace|
      ensures t[..i] == trace[..i]
    {}
  }

  function RemoveFirst(s: seq<int>, x: int): seq<int> {
    if |s| == 0 then s else if s[0] == x then s[1..] else [s[0]] + RemoveFirst(s[1..], x)
  }

  lemma {:induction false} TaggedRemove(kind: Kind, s: seq<int>, x: int)
    requires x in s
    ensures multiset(Tagged(kind, s)) == multiset(Tagged(kind, RemoveFirst(s, x))) + multiset{Resource(kind, x)}
  {
    hide Tagged;
    TaggedInsert(kind, s[1..], s[0]);
    assert s == [s[0]] + s[1..];
    if s[0] != x {
      TaggedRemove(kind, s[1..], x);
      TaggedInsert(kind, RemoveFirst(s[1..], x), s[0]);
    }
  }

  lemma TaggedInsert(kind: Kind, s: seq<int>, x: int)
    ensures multiset(Tagged(kind, [x] + s)) == multiset(Tagged(kind, s)) + multiset{Resource(kind, x)}
  {
    assert Tagged(kind, [x] + s) == [Resource(kind, x)] + Tagged(kind, s);
  }

  // ---- list changes -----------------------------------------------------------------------

  function ListOf(l: Ledger, kind: Kind): seq<int> {
    match kind
    case Descriptor => l.fds
    case Stream => l.files
    case Block => l.blocks
    case Cleanup => l.cleanups
  }

  function WithList(l: Ledger, kind: Kind, ids: seq<int>): Ledger {
    match kind
    case Descriptor => l.(fds := ids)
    case Stream => l.(files := ids)
    case Block => l.(blocks := ids)
    case Cleanup => l.(cleanups := ids)
  }

  /** A new entry at the head of its list. */
  function Insert(l: Ledger, kind: Kind, id: int): Ledger {
    WithList(l, kind, [id] + ListOf(l, kind)).(trace := l.trace + [Acquired(Resource(kind, id))])
  }

  /** The first entry with this id, if any, leaves its list, and the resource is released. */
  function Remove(l: Ledger, kind: Kind, id: int): Ledger {
    WithList(l, kind, RemoveFirst(ListOf(l, kind), id)).(trace := l.trace + [Released(Resource(kind, id))])
  }

  lemma InsertAccounts(l: Ledger, lost: multiset<Resource>, kind: Kind, id: int)
    requires Accounted(l, lost)
    ensures Accounted(Insert(l, kind, id), lost)
  {
    hide Sound, Outstanding, Tagged;
    TaggedInsert(kind, ListOf(l, kind), id);
    Appended(l.trace, Acquired(Resource(kind, id)));
    assert Held(Insert(l, kind, id)) == Held(l) + multiset{Resource(kind, id)};
  }

  lemma RemoveAccounts(l: Ledger, lost: multiset<Resource>, kind: Kind, id: int)
    requires Accounted(l, lost) && id in ListOf(l, kind)
    ensures Accounted(Remove(l, kind, id), lost)
  {
    hide Sound, Outstanding, Held;
    HeldWithout(l, kind, id);
    TakenOut(Held(l), Held(Remove(l, kind, id)), Resource(kind, id));
    Appended(l.trace, Released(Resource(kind, id)));
  }

  /** A resource that is not on its list can be released properly only if it is lost. */
  lemma RemoveUnrecorded(l: Ledger, lost: multiset<Resource>, kind: Kind, id: int)
    requires Accounted(l, lost) && id !in ListOf(l, kind)
    ensures var r := Resource(kind, id);
      if r in lost then Accounted(Remove(l, kind, id), lost - multiset{r}) else !Sound(Remove(l, kind, id).trace)
  {
    hide Outstanding, Tagged, Sound;
    var r := Resource(kind, id);
    NoOccurrence(ListOf(l, kind), id);
    NotHeld(l, kind, id);
    Appended(l.trace, Released(r));
    assert Held(Remove(l, kind, id)) == Held(l);
  }

  lemma NotHeld(l: Ledger, kind: Kind, id: int)
    requires id !in ListOf(l, kind)
    ensures Resource(kind, id) !in Held(l)
  {}

  lemma HeldWithout(l: Ledger, kind: Kind, id: int)
    requires id in ListOf(l, kind)
    ensures Held(l) == Held(Remove(l, kind, id)) + multiset{Resource(kind, id)}
  {
    hide Tagged, RemoveFirst;
    TaggedRemove(kind, ListOf(l, kind), id);
  }

  lemma TakenOut(a: multiset<Resource>, b: multiset<Resource>, r: Resource)
    requires a == b + multiset{r}
    ensures r in a && a - multiset{r} == b
  {}

  // ---- the calls --------------------------------------------------------------------------

  /** A wrapper call with the answers of the system: whether a list item could be allocated, and
      the descriptor (-1 for failure) or address (NULL for failure) obtained. */
  datatype Call =
    | Open(item: bool, fd: int)
    | Close(closing: int)
    | Fopen(item: bool, file: int)
    | Fclose(stream: int)
    | Alloc(org: int, ptr: int)
    | Reallocf(org: int, ptr: int)
    | Free(block: int)
    | AddDestructor(item: bool, node: int)
    | RemoveDestructor(cookie: int)
    | Exit(code: int)

  /** rtems_bsd_program_alloc: the old block leaves the list, if it was on it, before it is
      reallocated. A successful reallocation releases the old block, recorded or not, and records the
      new one. */
  function AllocStep(l: Ledger, org: int, ptr: int): Ledger {
    if ptr == NULL then (if org != NULL then l.(blocks := RemoveFirst(l.blocks, org)) else l)
    else Insert(if org != NULL then Remove(l, Block, org) else l, Block, ptr)
  }

  /** The effect of one call, or None where the code's assertion fails (freeing an unknown block)
      or its behaviour is undefined (removing an unknown destructor). */
  function Step(l: Ledger, c: Call): Option<Ledger>
    requires !c.Exit?
  {
    match c
    case Open(item, fd) => Some(if item && fd != -1 then Insert(l, Descriptor, fd) else l)
    case Close(fd) => Some(if fd in l.fds then Remove(l, Descriptor, fd) else l)
    case Fopen(item, file) => Some(if item && file != NULL then Insert(l, Stream, file) else l)
    case Fclose(file) => Some(if file in l.files then Remove(l, Stream, file) else l)
    case Alloc(org, ptr) => Some(AllocStep(l, org, ptr))
    case Reallocf(org, ptr) =>
      Some(if ptr == NULL && org != NULL then Remove(l, Block, org) else AllocStep(l, org, ptr))
    case Free(ptr) =>
      if ptr == NULL then Some(l) else if ptr in l.blocks then Some(Remove(l, Block, ptr)) else None
    case AddDestructor(item, node) => Some(if item then Insert(l, Cleanup, node) else l)
    case RemoveDestructor(node) => if node in l.cleanups then Some(Remove(l, Cleanup, node)) else None
  }

  /** A failed reallocation of a recorded block: it stays allocated but is no longer recorded. */
  predicate LosesBlock(l: Ledger, c: Call) { c.Alloc? && c.org != NULL && c.org in l.blocks && c.ptr == NULL }

  /** A reallocation that releases a block that is not recorded. */
  predicate ReleasesUnrecorded(l: Ledger, c: Call) {
    && ((c.Alloc? && c.ptr != NULL) || c.Reallocf?)
    && c.org != NULL && c.org !in l.blocks
  }

  /** What is lost after a call: a failed reallocation loses a recorded block, and the reallocation
      of a lost block finds it again. */
  function LostAfter(l: Ledger, lost: multiset<Resource>, c: Call): multiset<Resource> {
    if LosesBlock(l, c) then lost + multiset{Resource(Block, c.org)}
    else if ReleasesUnrecorded(l, c) then lost - multiset{Resource(Block, c.org)}
    else lost
  }

  /** A release of a block that is neither recorded nor lost. */
  predicate Stray(l: Ledger, lost: multiset<Resource>, c: Call) {
    ReleasesUnrecorded(l, c) && Resource(Block, c.org) !in lost
  }

  /** Every call keeps the account, except that a stray release makes the trace unsound. */
  lemma StepAccounts(l: Ledger, lost: multiset<Resource>, c: Call)
    requires Accounted(l, lost) && !c.Exit? && Step(l, c).Some?
    ensures if Stray(l, lost, c) then !Sound(Step(l, c).value.trace)
            else Accounted(Step(l, c).value, LostAfter(l, lost, c))
  {
    hide Accounted, Insert, Remove, Sound;
    match c
    case Open(_, fd) => InsertAccounts(l, lost, Descriptor, fd);
    case Close(fd) => if fd in l.fds { RemoveAccounts(l, lost, Descriptor, fd); }
    case Fopen(_, file) => InsertAccounts(l, lost, Stream, file);
    case Fclose(file) => if file in l.files { RemoveAccounts(l, lost, Stream, file); }
    case Alloc(org, ptr) => AllocAccounts(l, lost, c);
    case Reallocf(org, ptr) =>
      if ptr == NULL {
        if org != NULL { ReleaseAccounts(l, lost, org); }
      } else {
        AllocAccounts(l, lost, c);
      }
    case Free(ptr) => if ptr != NULL { RemoveAccounts(l, lost, Block, ptr); }
    case AddDestructor(_, node) => InsertAccounts(l, lost, Cleanup, node);
    case RemoveDestructor(node) => RemoveAccounts(l, lost, Cleanup, node);
  }

  /** Releasing a block that is recorded, lost or neither. */
  lemma ReleaseAccounts(l: Ledger, lost: multiset<Resource>, org: int)
    requires Accounted(l, lost)
    ensures var r := Resource(Block, org);
      if org in l.blocks then Accounted(Remove(l, Block, org), lost)
      else if r in lost then Accounted(Remove(l, Block, org), lost - multiset{r})
      else !Sound(Remove(l, Block, org).trace)
  {
    hide Accounted, Remove, Sound;
    if org in l.blocks {
      RemoveAccounts(l, lost, Block, org);
    } else {
      RemoveUnrecorded(l, lost, Block, org);
    }
  }

  lemma AllocAccounts(l: Ledger, lost: multiset<Resource>, c: Call)
    requires Accounted(l, lost) && (c.Alloc? || (c.Reallocf? && c.ptr != NULL))
    ensures var m := AllocStep(l, c.org, c.ptr);
      if Stray(l, lost, c) then !Sound(m.trace) else Accounted(m, LostAfter(l, lost, c))
  {
    hide Sound, Insert, Remove, Accounted;
    var org, ptr := c.org, c.ptr;
    if ptr == NULL {
      FailedAlloc(l, lost, org);
    } else if org == NULL {
      InsertAccounts(l, lost, Block, ptr);
    } else {
      ReleaseAccounts(l, lost, org);
      var m := Remove(l, Block, org);
      if Stray(l, lost, c) {
        InsertExtends(m, Block, ptr);
        UnsoundStays(m.trace, Insert(m, Block, ptr).trace);
      } else {
        InsertAccounts(m, LostAfter(l, lost, c), Block, ptr);
      }
    }
  }

  lemma FailedAlloc(l: Ledger, lost: multiset<Resource>, org: int)
    requires Accounted(l, lost)
    ensures var m := l.(blocks := RemoveFirst(l.blocks, org));
      if org in l.blocks then Accounted(m, lost + multiset{Resource(Block, org)}) else m == l
  {
    hide Sound, Outstanding, Tagged;
    if org in l.blocks {
      TaggedRemove(Block, l.blocks, org);
    } else {
      NoOccurrence(l.blocks, org);
    }
  }

  lemma InsertExtends(l: Ledger, kind: Kind, id: int)
    ensures l.trace <= Insert(l, kind, id).trace
  {}

  lemma UnsoundStays(t: seq<Event>, u: seq<Event>)
    requires t <= u && !Sound(t)
    ensures !Sound(u)
  {
    assert u[..|t|] == t;
    if Sound(u) { SoundPrefix(u, |t|); }
  }

  /** A call keeps the ledger balanced exactly when it neither loses a recorded block nor releases
      an unrecorded one. */
  lemma StepBalances(l: Ledger, c: Call)
    requires Balanced(l) && !c.Exit? && Step(l, c).Some?
    ensures Balanced(Step(l, c).value) <==> !LosesBlock(l, c) && !ReleasesUnrecorded(l, c)
  {
    hide Step, Sound, Held, Outstanding;
    var m, lost := Step(l, c).value, LostAfter(l, multiset{}, c);
    StepAccounts(l, multiset{}, c);
    assert LosesBlock(l, c) ==> lost == multiset{Resource(Block, c.org)} && Held(m) + lost != Held(m) + multiset{} by {
      assert |Held(m) + lost| == |Held(m)| + |lost|;
    }
  }

  // ---- runs and teardown ------------------------------------------------------------------

  datatype Outcome = Returned | Exited(code: int) | Aborted

  /** A program body is the calls it makes; rtems_bsd_program_exit leaves it at once. */
  function RunCalls(l: Ledger, calls: seq<Call>): (Ledger, Outcome)
    decreases |calls|
  {
    if |calls| == 0 then (l, Returned)
    else if calls[0].Exit? then (l, Exited(calls[0].code))
    else
      match Step(l, calls[0])
      case None => (l, Aborted)
      case Some(m) => RunCalls(m, calls[1..])
  }

  /** No call of the run releases a block that is neither recorded nor lost. */
  predicate NoStrays(l: Ledger, lost: multiset<Resource>, calls: seq<Call>)
    decreases |calls|
  {
    |calls| > 0 && !calls[0].Exit? && Step(l, calls[0]).Some? ==>
      !Stray(l, lost, calls[0]) && NoStrays(Step(l, calls[0]).value, LostAfter(l, lost, calls[0]), calls[1..])
  }

  /** What is lost at the end of the run. */
  function LostInRun(l: Ledger, lost: multiset<Resource>, calls: seq<Call>): multiset<Resource>
    decreases |calls|
  {
    if |calls| > 0 && !calls[0].Exit? && Step(l, calls[0]).Some? then
      LostInRun(Step(l, calls[0]).value, LostAfter(l, lost, calls[0]), calls[1..])
    else lost
  }

  /** Takes everything off one list, first entry first. */
  function DropAll(l: Ledger, kind: Kind): (m: Ledger)
    ensures ListOf(m, kind) == [] && forall k | k != kind :: ListOf(m, k) == ListOf(l, k)
    decreases |ListOf(l, kind)|
  {
    if ListOf(l, kind) == [] then l else DropAll(Remove(l, kind, ListOf(l, kind)[0]), kind)
  }

  /** What happens after the body however it ended: descriptors, streams, blocks and destructors. */
  function Teardown(l: Ledger): Ledger {
    DropAll(DropAll(DropAll(DropAll(l, Descriptor), Stream), Block), Cleanup)
  }

  /** The ledger when all is over; an aborted run is not torn down. */
  function Ended(calls: seq<Call>): Ledger {
    var (l, outcome) := RunCalls(EMPTY, calls);
    if outcome.Aborted? then l else Teardown(l)
  }

  lemma {:induction false} DropAllAccounts(l: Ledger, lost: multiset<Resource>, kind: Kind)
    ensures Accounted(l, lost) ==> Accounted(DropAll(l, kind), lost)
    ensures l.trace <= DropAll(l, kind).trace
    decreases |ListOf(l, kind)|
  {
    hide Accounted;
    if ListOf(l, kind) != [] {
      var m := Remove(l, kind, ListOf(l, kind)[0]);
      if Accounted(l, lost) { RemoveAccounts(l, lost, kind, ListOf(l, kind)[0]); }
      DropAllAccounts(m, lost, kind);
    }
  }

  lemma TeardownAccounts(l: Ledger, lost: multiset<Resource>)
    ensures Accounted(l, lost) ==> Accounted(Teardown(l), lost)
    ensures l.trace <= Teardown(l).trace && Held(Teardown(l)) == multiset{}
  {
    hide Accounted, DropAll;
    var a := DropAll(l, Descriptor);
    var b := DropAll(a, Stream);
    var c := DropAll(b, Block);
    DropAllAccounts(l, lost, Descriptor);
    DropAllAccounts(a, lost, Stream);
    DropAllAccounts(b, lost, Block);
    DropAllAccounts(c, lost, Cleanup);
    NothingHeld(DropAll(c, Cleanup));
  }

  lemma StepExtends(l: Ledger, c: Call)
    requires !c.Exit? && Step(l, c).Some?
    ensures l.trace <= Step(l, c).value.trace
  {}

  lemma {:induction false} RunExtends(l: Ledger, calls: seq<Call>)
    ensures l.trace <= RunCalls(l, calls).0.trace
    decreases |calls|
  {
    hide Step;
    if |calls| > 0 && !calls[0].Exit? && Step(l, calls[0]).Some? {
      StepExtends(l, calls[0]);
      RunExtends(Step(l, calls[0]).value, calls[1..]);
    }
  }

  /** Over every run, finished or not, what is outstanding is on the lists or lost, unless there was
      a stray release. */
  lemma {:induction false} RunAccounts(l: Ledger, lost: multiset<Resource>, calls: seq<Call>)
    requires Accounted(l, lost)
    ensures if NoStrays(l, lost, calls) then Accounted(RunCalls(l, calls).0, LostInRun(l, lost, calls))
            else !Sound(RunCalls(l, calls).0.trace)
    decreases |calls|
  {
    hide Step, Accounted, Stray, LostAfter, Sound;
    if |calls| > 0 && !calls[0].Exit? && Step(l, calls[0]).Some? {
      var m := Step(l, calls[0]).value;
      StepAccounts(l, lost, calls[0]);
      if Stray(l, lost, calls[0]) {
        RunExtends(m, calls[1..]);
        UnsoundStays(m.trace, RunCalls(m, calls[1..]).0.trace);
      } else {
        RunAccounts(m, LostAfter(l, lost, calls[0]), calls[1..]);
      }
    }
  }

  function Count(trace: seq<Event>, e: Event): nat { multiset(trace)[e] }

  /** Over every run nothing is released that is not outstanding if and only if no release is stray.
      Moreover every resource is then released exactly as often as acquired if and only if no block
      stays lost and, where the run was aborted and not torn down, nothing was on the lists. */
  lemma EverythingIsReleasedOnce(calls: seq<Call>)
    ensures var (l, outcome) := RunCalls(EMPTY, calls);
      var lost, trace := LostInRun(EMPTY, multiset{}, calls), Ended(calls).trace;
      && (Sound(trace) <==> NoStrays(EMPTY, multiset{}, calls))
      && (Sound(trace) ==> Outstanding(trace) == lost + if outcome.Aborted? then Held(l) else multiset{})
      && (Sound(trace) ==>
           ((forall r :: Count(trace, Acquired(r)) == Count(trace, Released(r))) <==>
             lost == multiset{} && (outcome.Aborted? ==> Held(l) == multiset{})))
  {
    hide Teardown, NoStrays, RunCalls, LostInRun, Sound, Held, Outstanding, Count;
    var lost := LostInRun(EMPTY, multiset{}, calls);
    EmptyIsBalanced();
    RunAccounts(EMPTY, multiset{}, calls);
    var (l, outcome) := RunCalls(EMPTY, calls);
    TeardownAccounts(l, lost);
    var trace := Ended(calls).trace;
    if !Sound(l.trace) {
      UnsoundStays(l.trace, trace);
    } else {
      CountsTellOutstanding(trace);
    }
  }

  lemma CountsTellOutstanding(trace: seq<Event>)
    requires Sound(trace)
    ensures (forall r :: Count(trace, Acquired(r)) == Count(trace, Released(r))) <==> Outstanding(trace) == multiset{}
  {
    hide Sound, Outstanding, Count;
    forall r
      ensures Count(trace, Acquired(r)) == Count(trace, Released(r)) + Outstanding(trace)[r]
    {
      OutstandingCounts(trace, r);
    }
    if Outstanding(trace) != multiset{} {
      var r :| r in Outstanding(trace);
    }
  }

  /** Reallocating a block that no wrapper recorded is a stray release. */
  lemma UnrecordedReallocation()
    ensures !Sound(Ended([Alloc(7, 8)]).trace)
  {
    hide Ended, Sound;
    EverythingIsReleasedOnce([Alloc(7, 8)]);
    assert Stray(EMPTY, multiset{}, Alloc(7, 8));
  }

  /** A block whose reallocation failed is never released, unless the reallocation is tried again. */
  lemma FailedReallocation()
    ensures Outstanding(Ended([Alloc(NULL, 7), Alloc(7, NULL)]).trace) == multiset{Resource(Block, 7)}
    ensures var trace := Ended([Alloc(NULL, 7), Alloc(7, NULL), Alloc(7, 8)]).trace;
      Sound(trace) && Outstanding(trace) == multiset{}
  {
    hide Ended, Sound, Outstanding, Held;
    var short, long := [Alloc(NULL, 7), Alloc(7, NULL)], [Alloc(NULL, 7), Alloc(7, NULL), Alloc(7, 8)];
    EverythingIsReleasedOnce(short);
    EverythingIsReleasedOnce(long);
    AfterFailure([]);
    AfterFailure([Alloc(7, 8)]);
    assert short == [Alloc(NULL, 7), Alloc(7, NULL)] + [] && long == [Alloc(NULL, 7), Alloc(7, NULL)] + [Alloc(7, 8)];
  }

  lemma AfterFailure(rest: seq<Call>)
    ensures var calls, lost := [Alloc(NULL, 7), Alloc(7, NULL)] + rest, multiset{Resource(Block, 7)};
      var m := EMPTY.(trace := [Acquired(Resource(Block, 7))]);
      && RunCalls(EMPTY, calls) == RunCalls(m, rest)
      && NoStrays(EMPTY, multiset{}, calls) == NoStrays(m, lost, rest)
      && LostInRun(EMPTY, multiset{}, calls) == LostInRun(m, lost, rest)
  {
    var first, second := Alloc(NULL, 7), Alloc(7, NULL);
    var calls := [first, second] + rest;
    var l := Insert(EMPTY, Block, 7);
    assert calls[0] == first && calls[1..] == [second] + rest;
    assert calls[1..][0] == second && calls[1..][1..] == rest;
    assert Step(EMPTY, first).value == l && l.blocks == [7];
    assert LostAfter(l, multiset{}, second) == multiset{Resource(Block, 7)};
    assert Step(l, second).value == EMPTY.(trace := [Acquired(Resource(Block, 7))]);
  }

  lemma EmptyIsBalanced()
    ensures Balanced(EMPTY)
  {}

  lemma NothingHeld(l: Ledger)
    requires ListOf(l, Descriptor) == ListOf(l, Stream) == ListOf(l, Block) == ListOf(l, Cleanup) == []
    ensures Held(l) == multiset{}
  {}

  /** In a sound trace the outstanding resources are those acquired more often than released. */
  lemma {:induction false} OutstandingCounts(trace: seq<Event>, r: Resource)
    requires Sound(trace)
    ensures Count(trace, Acquired(r)) == Count(trace, Released(r)) + Outstanding(trace)[r]
  {
    if |trace| > 0 {
      var n := |trace| - 1;
      var t, e := trace[..n], trace[n];
      assert trace == t + [e];
      hide Count, Sound, Outstanding;
      Appended(t, e);
      OutstandingCounts(t, r);
      CountStep(t, e, Acquired(r));
      CountStep(t, e, Released(r));
    }
  }

  lemma CountStep(t: seq<Event>, e: Event, x: Event)
    ensures Count(t + [e], x) == Count(t, x) + if e == x then 1 else 0
  {
    assert multiset(t + [e]) == multiset(t) + multiset{e};
  }

  lemma SoundPrefix(trace: seq<Event>, n: nat)
    requires n <= |trace| && Sound(trace)
    ensures Sound(trace[..n])
  {
    forall i | 0 <= i < n
      ensures trace[..n][..i] == trace[..i]
    {}
  }

  // ---- what the system sees ---------------------------------------------------------------

  /** What the system hands out in a call, going by the call alone. */
  function Obtained(c: Call): Option<Resource> {
    match c
    case Open(item, fd) => if item && fd != -1 then Some(Resource(Descriptor, fd)) else None
    case Fopen(item, file) => if item && file != NULL then Some(Resource(Stream, file)) else None
    case Alloc(_, ptr) => if ptr != NULL then Some(Resource(Block, ptr)) else None
    case Reallocf(_, ptr) => if ptr != NULL then Some(Resource(Block, ptr)) else None
    case AddDestructor(item, node) => if item then Some(Resource(Cleanup, node)) else None
    case _ => None
  }

  /** What it gets back in a call when so much is held: closing and freeing give back what is held,
      reallocation gives back the old block unless it fails, and reallocf even then. */
  function GivenBack(c: Call, held: multiset<Resource>): Option<Resource> {
    match c
    case Close(fd) => if Resource(Descriptor, fd) in held then Some(Resource(Descriptor, fd)) else None
    case Fclose(file) => if Resource(Stream, file) in held then Some(Resource(Stream, file)) else None
    case Free(ptr) => if ptr != NULL then Some(Resource(Block, ptr)) else None
    case RemoveDestructor(node) => Some(Resource(Cleanup, node))
    case Alloc(org, ptr) => if org != NULL && ptr != NULL then Some(Resource(Block, org)) else None
    case Reallocf(org, _) => if org != NULL then Some(Resource(Block, org)) else None
    case _ => None
  }

  /** Freeing or removing what is not held is not carried out. */
  predicate Refused(c: Call, held: multiset<Resource>) {
    || (c.Free? && c.block != NULL && Resource(Block, c.block) !in held)
    || (c.RemoveDestructor? && Resource(Cleanup, c.cookie) !in held)
  }

  function Less(held: multiset<Resource>, r: Option<Resource>): multiset<Resource> {
    if r.Some? then held - multiset{r.value} else held
  }

  function More(held: multiset<Resource>, r: Option<Resource>): multiset<Resource> {
    if r.Some? then held + multiset{r.value} else held
  }

  /** What is held after a call; a failed reallocation forgets the old block. */
  function HeldAfter(held: multiset<Resource>, c: Call): multiset<Resource> {
    var gone := if c.Alloc? && c.org != NULL then Some(Resource(Block, c.org)) else GivenBack(c, held);
    More(Less(held, gone), Obtained(c))
  }

  function CallEvents(c: Call, held: multiset<Resource>): seq<Event> {
    (if GivenBack(c, held).Some? then [Released(GivenBack(c, held).value)] else [])
    + (if Obtained(c).Some? then [Acquired(Obtained(c).value)] else [])
  }

  function AllReleased(kind: Kind, ids: seq<int>): seq<Event> {
    if |ids| == 0 then [] else [Released(Resource(kind, ids[0]))] + AllReleased(kind, ids[1..])
  }

  function AllAcquired(kind: Kind, ids: seq<int>): seq<Event> {
    if |ids| == 0 then [] else [Acquired(Resource(kind, ids[0]))] + AllAcquired(kind, ids[1..])
  }

  /** What happens in a run, going by the calls alone. */
  function RunEvents(held: multiset<Resource>, calls: seq<Call>): seq<Event>
    decreases |calls|
  {
    if |calls| == 0 || calls[0].Exit? || Refused(calls[0], held) then []
    else CallEvents(calls[0], held) + RunEvents(HeldAfter(held, calls[0]), calls[1..])
  }

  lemma HeldIsListed(l: Ledger, kind: Kind, id: int)
    ensures Resource(kind, id) in Held(l) <==> id in ListOf(l, kind)
  {
    if id in ListOf(l, kind) { HeldWithout(l, kind, id); }
    else { NotHeld(l, kind, id); }
  }

  lemma HeldAfterInsert(l: Ledger, kind: Kind, id: int)
    ensures Held(Insert(l, kind, id)) == Held(l) + multiset{Resource(kind, id)}
  {
    hide Tagged;
    TaggedInsert(kind, ListOf(l, kind), id);
  }

  lemma HeldAfterRemove(l: Ledger, kind: Kind, id: int)
    ensures Held(Remove(l, kind, id)) == Held(l) - multiset{Resource(kind, id)}
  {
    hide Tagged;
    HeldIsListed(l, kind, id);
    if id in ListOf(l, kind) {
      HeldWithout(l, kind, id);
    } else {
      NoOccurrence(ListOf(l, kind), id);
      assert Held(Remove(l, kind, id)) == Held(l);
    }
  }

  lemma InsertMatches(l: Ledger, kind: Kind, id: int)
    ensures var m := Insert(l, kind, id);
      m.trace == l.trace + [Acquired(Resource(kind, id))] && Held(m) == Held(l) + multiset{Resource(kind, id)}
  {
    HeldAfterInsert(l, kind, id);
  }

  lemma RemoveMatches(l: Ledger, kind: Kind, id: int)
    ensures var m := Remove(l, kind, id);
      m.trace == l.trace + [Released(Resource(kind, id))] && Held(m) == Held(l) - multiset{Resource(kind, id)}
    ensures Resource(kind, id) in Held(l) <==> id in ListOf(l, kind)
  {
    HeldAfterRemove(l, kind, id);
    HeldIsListed(l, kind, id);
  }

  /** The ledger after a call is as the call alone says. */
  predicate Matches(l: Ledger, c: Call, next: Option<Ledger>) {
    && (next.Some? <==> !Refused(c, Held(l)))
    && (next.Some? ==> next.value.trace == l.trace + CallEvents(c, Held(l)) && Held(next.value) == HeldAfter(Held(l), c))
  }

  /** Every call records what the system hands out and takes off what it gets back. */
  lemma StepMatches(l: Ledger, c: Call)
    requires !c.Exit?
    ensures Matches(l, c, Step(l, c))
  {
    hide Matches, Step;
    match c
    case Open(item, fd) => AdditionMatches(l, c, Descriptor, fd);
    case Fopen(item, file) => AdditionMatches(l, c, Stream, file);
    case AddDestructor(item, node) => AdditionMatches(l, c, Cleanup, node);
    case Close(fd) => RemovalMatches(l, c, Descriptor, fd);
    case Fclose(file) => RemovalMatches(l, c, Stream, file);
    case Free(ptr) => RemovalMatches(l, c, Block, ptr);
    case RemoveDestructor(node) => RemovalMatches(l, c, Cleanup, node);
    case Alloc(org, ptr) => ReallocationMatches(l, c);
    case Reallocf(org, ptr) => ReallocationMatches(l, c);
  }

  lemma AdditionMatches(l: Ledger, c: Call, kind: Kind, id: int)
    requires (c.Open? && kind == Descriptor && id == c.fd) || (c.Fopen? && kind == Stream && id == c.file)
          || (c.AddDestructor? && kind == Cleanup && id == c.node)
    ensures Matches(l, c, Step(l, c))
  {
    hide Held, Insert;
    InsertMatches(l, kind, id);
  }

  lemma RemovalMatches(l: Ledger, c: Call, kind: Kind, id: int)
    requires (c.Close? && kind == Descriptor && id == c.closing) || (c.Fclose? && kind == Stream && id == c.stream)
          || (c.Free? && kind == Block && id == c.block) || (c.RemoveDestructor? && kind == Cleanup && id == c.cookie)
    ensures Matches(l, c, Step(l, c))
  {
    hide Held, Remove;
    RemoveMatches(l, kind, id);
  }

  lemma ReallocationMatches(l: Ledger, c: Call)
    requires c.Alloc? || c.Reallocf?
    ensures Matches(l, c, Step(l, c))
  {
    hide Held, AllocStep, Remove;
    AllocMatches(l, c.org, c.ptr);
    RemoveMatches(l, Block, c.org);
  }

  lemma AllocMatches(l: Ledger, org: int, ptr: int)
    ensures var m := AllocStep(l, org, ptr);
      var less := if org != NULL then Held(l) - multiset{Resource(Block, org)} else Held(l);
      && Held(m) == less + (if ptr != NULL then multiset{Resource(Block, ptr)} else multiset{})
      && m.trace == l.trace + (if org != NULL && ptr != NULL then [Released(Resource(Block, org))] else [])
                            + (if ptr != NULL then [Acquired(Resource(Block, ptr))] else [])
  {
    hide Held, Insert, Remove;
    var rest := if org != NULL then Remove(l, Block, org) else l;
    RemoveMatches(l, Block, org);
    InsertMatches(rest, Block, ptr);
    Forgotten(l, org);
  }

  /** Dropping a block from the list leaves the lists as releasing it does. */
  lemma Forgotten(l: Ledger, org: int)
    ensures Held(l.(blocks := RemoveFirst(l.blocks, org))) == Held(Remove(l, Block, org))
  {
    hide Held;
    SameLists(l.(blocks := RemoveFirst(l.blocks, org)), Remove(l, Block, org));
  }

  lemma SameLists(l: Ledger, m: Ledger)
    requires l.fds == m.fds && l.files == m.files && l.blocks == m.blocks && l.cleanups == m.cleanups
    ensures Held(l) == Held(m)
  {}

  /** Over every run the trace is exactly what the calls say, and so is what is held. */
  lemma {:induction false} RunMatches(l: Ledger, calls: seq<Call>)
    ensures RunCalls(l, calls).0.trace == l.trace + RunEvents(Held(l), calls)
    decreases |calls|
  {
    hide Step, Held, CallEvents, HeldAfter, Refused;
    if |calls| > 0 && !calls[0].Exit? {
      StepMatches(l, calls[0]);
      if Step(l, calls[0]).Some? {
        RunMatches(Step(l, calls[0]).value, calls[1..]);
      }
    }
  }

  // ---- the order of the teardown ----------------------------------------------------------

  lemma {:induction false} DropAllReleases(l: Ledger, kind: Kind)
    ensures DropAll(l, kind).trace == l.trace + AllReleased(kind, ListOf(l, kind))
    decreases |ListOf(l, kind)|
  {
    var ids := ListOf(l, kind);
    if ids != [] {
      var m := Remove(l, kind, ids[0]);
      assert ListOf(m, kind) == ids[1..] && m.trace == l.trace + [Released(Resource(kind, ids[0]))];
      DropAllReleases(m, kind);
      Regrouped(l.trace, [Released(Resource(kind, ids[0]))], AllReleased(kind, ids[1..]));
    }
  }

  /** What is on the lists is released list by list, each from its head on: descriptors, streams,
      blocks and destructors. Nothing else happens. */
  lemma TeardownReleases(l: Ledger)
    ensures Teardown(l).trace == l.trace
      + AllReleased(Descriptor, l.fds) + AllReleased(Stream, l.files)
      + AllReleased(Block, l.blocks) + AllReleased(Cleanup, l.cleanups)
  {
    hide DropAll, AllReleased;
    var a := DropAll(l, Descriptor);
    var b := DropAll(a, Stream);
    var c := DropAll(b, Block);
    DropAllReleases(l, Descriptor);
    DropAllReleases(a, Stream);
    DropAllReleases(b, Block);
    DropAllReleases(c, Cleanup);
    assert ListOf(a, Stream) == ListOf(l, Stream) && ListOf(b, Block) == ListOf(l, Block) && ListOf(c, Cleanup) == ListOf(l, Cleanup);
  }

  function Additions(nodes: seq<int>): seq<Call> {
    seq(|nodes|, i requires 0 <= i < |nodes| => AddDestructor(true, nodes[i]))
  }

  function Reversed(s: seq<int>): seq<int> { if |s| == 0 then [] else Reversed(s[1..]) + [s[0]] }

  function Added(l: Ledger, nodes: seq<int>): Ledger {
    l.(cleanups := Reversed(nodes) + l.cleanups, trace := l.trace + AllAcquired(Cleanup, nodes))
  }

  lemma AddedStep(l: Ledger, nodes: seq<int>)
    ensures |nodes| == 0 ==> Added(l, nodes) == l
    ensures |nodes| > 0 ==> Added(Insert(l, Cleanup, nodes[0]), nodes[1..]) == Added(l, nodes)
  {
    if |nodes| > 0 {
      Regrouped(l.trace, [Acquired(Resource(Cleanup, nodes[0]))], AllAcquired(Cleanup, nodes[1..]));
      Regrouped(Reversed(nodes[1..]), [nodes[0]], l.cleanups);
    } else {
      assert [] + l.cleanups == l.cleanups && l.trace + [] == l.trace;
    }
  }

  lemma Regrouped<T>(a: seq<T>, b: seq<T>, c: seq<T>)
    ensures (a + b) + c == a + (b + c)
  {}

  lemma {:induction false} AfterAdditions(l: Ledger, nodes: seq<int>)
    ensures RunCalls(l, Additions(nodes)) == (Added(l, nodes), Returned)
    decreases |nodes|
  {
    hide Added;
    AddedStep(l, nodes);
    if |nodes| > 0 {
      var m, first := Insert(l, Cleanup, nodes[0]), AddDestructor(true, nodes[0]);
      assert Additions(nodes)[0] == first && Additions(nodes)[1..] == Additions(nodes[1..]);
      assert Step(l, first) == Some(m);
      AfterAdditions(m, nodes[1..]);
    }
  }

  /** Destructors are called in the reverse order of their addition. */
  lemma DestructorsRunBackwards(nodes: seq<int>)
    ensures Ended(Additions(nodes)).trace ==
      AllAcquired(Cleanup, nodes) + AllReleased(Cleanup, Reversed(nodes))
  {
    hide Teardown, Reversed, Additions, RunCalls, AllAcquired;
    AfterAdditions(EMPTY, nodes);
    var l := Added(EMPTY, nodes);
    TeardownReleases(l);
    assert l.cleanups == Reversed(nodes) && l.trace == AllAcquired(Cleanup, nodes);
    assert l.trace + [] + [] + [] == l.trace;
  }

  /** What was acquired in the end is what the system handed out in the run; so where the conditions
      of EverythingIsReleasedOnce hold, it has all been given back, each as often as handed out. */
  lemma AllHandedOutIsGivenBack(calls: seq<Call>)
    ensures var handed, trace := RunEvents(multiset{}, calls), Ended(calls).trace;
      && handed <= trace
      && (forall r :: Count(trace, Acquired(r)) == Count(handed, Acquired(r)))
      && (NoStrays(EMPTY, multiset{}, calls) && LostInRun(EMPTY, multiset{}, calls) == multiset{}
          && !RunCalls(EMPTY, calls).1.Aborted? ==>
           forall r :: Count(trace, Released(r)) == Count(handed, Acquired(r)))
  {
    hide Teardown, NoStrays, RunCalls, LostInRun, Sound, Outstanding, RunEvents, AllReleased, Count;
    var l := RunCalls(EMPTY, calls).0;
    EmptyIsBalanced();
    assert Held(EMPTY) == multiset{};
    RunMatches(EMPTY, calls);
    assert l.trace == RunEvents(multiset{}, calls);
    TeardownReleases(l);
    forall r
      ensures Count(Ended(calls).trace, Acquired(r)) == Count(RunEvents(multiset{}, calls), Acquired(r))
    {
      ReleasesAcquireNothing(l.trace, Descriptor, l.fds, r);
      var a := l.trace + AllReleased(Descriptor, l.fds);
      ReleasesAcquireNothing(a, Stream, l.files, r);
      var b := a + AllReleased(Stream, l.files);
      ReleasesAcquireNothing(b, Block, l.blocks, r);
      ReleasesAcquireNothing(b + AllReleased(Block, l.blocks), Cleanup, l.cleanups, r);
    }
    EverythingIsReleasedOnce(calls);
  }

  lemma {:induction false} ReleasesAcquireNothing(t: seq<Event>, kind: Kind, ids: seq<int>, r: Resource)
    ensures Count(t + AllReleased(kind, ids), Acquired(r)) == Count(t, Acquired(r))
    decreases |ids|
  {
    var es := AllReleased(kind, ids);
    if |ids| == 0 {
      assert t + es == t;
    } else {
      var first := [Released(Resource(kind, ids[0]))];
      ReleasesAcquireNothing(t + first, kind, ids[1..], r);
      assert t + es == t + first + AllReleased(kind, ids[1..]);
      assert multiset(t + first) == multiset(t) + multiset(first);
    }
  }

  // ---- the program control structure ------------------------------------------------------

  /** Searches a list and unlinks the first entry found. */
  method Unlink(list: seq<int>, x: int) returns (rest: seq<int>, found: bool)
    ensures found <==> x in list
    ensures rest == RemoveFirst(list, x) && (!found ==> rest == list)
  {
    rest, found := list, false;
    var i := 0;
    while i < |list|
      invariant i <= |list| && x !in list[..i]
    {
      if list[i] == x {
        FirstOccurrence(list, x, i);
        return list[..i] + list[i + 1..], true;
      }
      i := i + 1;
    }
    NoOccurrence(list, x);
  }

  lemma {:induction false} FirstOccurrence(s: seq<int>, x: int, i: nat)
    requires i < |s| && s[i] == x && x !in s[..i]
    ensures RemoveFirst(s, x) == s[..i] + s[i + 1..]
  {
    if i > 0 {
      assert s[0] in s[..i] && s[1..][..i - 1] == s[..i][1..];
      FirstOccurrence(s[1..], x, i - 1);
    }
  }

  lemma {:induction false} NoOccurrence(s: seq<int>, x: int)
    requires x !in s
    ensures RemoveFirst(s, x) == s
  {
    if |s| > 0 { NoOccurrence(s[1..], x); }
  }

  class Program {
    var openFd: seq<int>
    var openFile: seq<int>
    var allocatedMem: seq<int>
    var destructors: seq<int>
    var exitCode: int
    ghost var trace: seq<Event>

    ghost function State(): Ledger
      reads this
    {
      Ledger(openFd, openFile, allocatedMem, destructors, trace)
    }

    constructor ()
      ensures State() == EMPTY && exitCode == EXIT_FAILURE
    {
      openFd, openFile, allocatedMem, destructors, trace := [], [], [], [], [];
      exitCode := EXIT_FAILURE;
    }

    /** fd_close_remove: only a recorded descriptor is closed; closeRv is what close answers. */
    method FdCloseRemove(fd: int, closeRv: int) returns (rv: int)
      modifies this
      ensures State() == (if fd in old(openFd) then Remove(old(State()), Descriptor, fd) else old(State()))
      ensures rv == (if fd in old(openFd) then closeRv else -1) && exitCode == old(exitCode)
    {
      var found;
      rv := -1;
      openFd, found := Unlink(openFd, fd);
      if found {
        rv := closeRv;
        trace := trace + [Released(Resource(Descriptor, fd))];
      }
    }

    /** file_close_remove */
    method FileCloseRemove(file: int, closeRv: int) returns (rv: int)
      modifies this
      ensures State() == (if file in old(openFile) then Remove(old(State()), Stream, file) else old(State()))
      ensures rv == (if file in old(openFile) then closeRv else -1) && exitCode == old(exitCode)
    {
      var found;
      rv := -1;
      openFile, found := Unlink(openFile, file);
      if found {
        rv := closeRv;
        trace := trace + [Released(Resource(Stream, file))];
      }
    }

    /** allocmem_free_remove */
    method AllocmemFreeRemove(ptr: int) returns (rv: int)
      modifies this
      ensures State() == (if ptr in old(allocatedMem) then Remove(old(State()), Block, ptr) else old(State()))
      ensures rv == (if ptr in old(allocatedMem) then 0 else -1) && exitCode == old(exitCode)
    {
      var found;
      rv := -1;
      allocatedMem, found := Unlink(allocatedMem, ptr);
      if found {
        rv := 0;
        trace := trace + [Released(Resource(Block, ptr))];
      }
    }

    /** rtems_bsd_program_alloc; ptr is what realloc answers. */
    method Alloc(org: int, ptr: int)
      modifies this
      ensures State() == AllocStep(old(State()), org, ptr) && exitCode == old(exitCode)
    {
      if org != NULL {
        var rest, _ := Unlink(allocatedMem, org);
        allocatedMem := rest;
      }
      if ptr != NULL {
        if org != NULL {
          trace := trace + [Released(Resource(Block, org))];
        }
        allocatedMem := [ptr] + allocatedMem;
        trace := trace + [Acquired(Resource(Block, ptr))];
      }
    }

    /** One wrapper call. The answer false stands for a failed assertion or undefined behaviour. */
    method Execute(c: Call) returns (ok: bool)
      requires !c.Exit?
      modifies this
      ensures exitCode == old(exitCode)
      ensures ok <==> Step(old(State()), c).Some?
      ensures State() == if ok then Step(old(State()), c).value else old(State())
    {
      ok := true;
      var rv;
      match c
      case Open(item, fd) =>
        if item && fd != -1 {
          openFd := [fd] + openFd;
          trace := trace + [Acquired(Resource(Descriptor, fd))];
        }
      case Close(fd) =>
        rv := FdCloseRemove(fd, 0);
      case Fopen(item, file) =>
        if item && file != NULL {
          openFile := [file] + openFile;
          trace := trace + [Acquired(Resource(Stream, file))];
        }
      case Fclose(file) =>
        rv := FileCloseRemove(file, 0);
      case Alloc(org, ptr) =>
        Alloc(org, ptr);
      case Reallocf(org, ptr) =>
        Alloc(org, ptr);
        if ptr == NULL && org != NULL {
          trace := trace + [Released(Resource(Block, org))];  // free(org)
        }
      case Free(ptr) =>
        if ptr != NULL {
          rv := AllocmemFreeRemove(ptr);
          ok := rv == 0;
        }
      case AddDestructor(item, node) =>
        if item {
          destructors := [node] + destructors;
          trace := trace + [Acquired(Resource(Cleanup, node))];
        }
      case RemoveDestructor(node) =>
        var rest;
        rest, ok := Unlink(destructors, node);
        if ok {
          destructors := rest;
          trace := trace + [Released(Resource(Cleanup, node))];
        }
    }

    /** The body of the program: it ends by returning, by a call of exit, or by an abort. */
    method Body(calls: seq<Call>) returns (outcome: Outcome)
      modifies this
      ensures (State(), outcome) == RunCalls(old(State()), calls)
      ensures outcome.Exited? ==> exitCode == outcome.code
    {
      hide Step;
      var i := 0;
      while i < |calls|
        invariant i <= |calls| && RunCalls(State(), calls[i..]) == RunCalls(old(State()), calls)
      {
        assert calls[i..][0] == calls[i] && calls[i..][1..] == calls[i + 1..];
        if calls[i].Exit? {
          exitCode := calls[i].code;
          return Exited(exitCode);
        }
        var ok := Execute(calls[i]);
        if !ok {
          return Aborted;
        }
        i := i + 1;
      }
      outcome := Returned;
    }

    /** fd_close_all; a failing close is only logged. */
    method FdCloseAll()
      modifies this
      ensures State() == DropAll(old(State()), Descriptor) && exitCode == old(exitCode)
    {
      while openFd != []
        invariant DropAll(State(), Descriptor) == DropAll(old(State()), Descriptor) && exitCode == old(exitCode)
        decreases |openFd|
      {
        var rv := FdCloseRemove(openFd[0], 0);
      }
    }

    /** file_close_all */
    method FileCloseAll()
      modifies this
      ensures State() == DropAll(old(State()), Stream) && exitCode == old(exitCode)
    {
      while openFile != []
        invariant DropAll(State(), Stream) == DropAll(old(State()), Stream) && exitCode == old(exitCode)
        decreases |openFile|
      {
        var rv := FileCloseRemove(openFile[0], 0);
      }
    }

    /** allocmem_free_all */
    method AllocmemFreeAll()
      modifies this
      ensures State() == DropAll(old(State()), Block) && exitCode == old(exitCode)
    {
      while allocatedMem != []
        invariant DropAll(State(), Block) == DropAll(old(State()), Block) && exitCode == old(exitCode)
        decreases |allocatedMem|
      {
        var rv := AllocmemFreeRemove(allocatedMem[0]);
      }
    }

    /** call_destructors: each is called and freed, the youngest first. */
    method CallDestructors()
      modifies this
      ensures State() == DropAll(old(State()), Cleanup) && exitCode == old(exitCode)
    {
      while destructors != []
        invariant DropAll(State(), Cleanup) == DropAll(old(State()), Cleanup) && exitCode == old(exitCode)
        decreases |destructors|
      {
        trace := trace + [Released(Resource(Cleanup, destructors[0]))];
        destructors := destructors[1..];
      }
    }
  }

  /** rtems_bsd_program_call: runs a body that returns the code ret unless it exits first. The run
      never starts when the control structure cannot be allocated or set. */
  method ProgramCall(obtained: bool, setError: int, calls: seq<Call>, ret: int)
    returns (started: bool, outcome: Outcome, code: int, ghost final: Ledger)
    ensures started <==> obtained && setError == 0
    ensures !started ==> code == EXIT_FAILURE && final == EMPTY
    ensures started ==> outcome == RunCalls(EMPTY, calls).1
    ensures started ==> final == Ended(calls)
    ensures started && !outcome.Aborted? ==> code == if outcome.Exited? then outcome.code else ret
  {
    hide RunCalls, DropAll;
    started, outcome, code, final := false, Aborted, EXIT_FAILURE, EMPTY;
    if obtained && setError == 0 {
      started := true;
      var control := new Program();
      outcome := control.Body(calls);
      if !outcome.Aborted? {
        code := if outcome.Exited? then control.exitCode else ret;
        control.FdCloseAll();
        control.FileCloseAll();
        control.AllocmemFreeAll();
        control.CallDestructors();
      }
      final := control.State();
    }
  }
}
