/**
 The mutexes and semaphores of kernel/linux_thread.c. All of them share one recursive lock,
 whose depth the code counts by hand in `atomic_recurse` and gives up entirely before it
 sleeps. Threads run as interleavings of single steps; a step touches the shared state once.
 */
module Thread {

  // Calls a thread makes: lock, trylock and unlock of a mutex; down, down_trylock and up of
  // a semaphore; atomic_lock and atomic_unlock around such calls.
  datatype Op = NoOp | MLock | MTry | MUnlock | Down | TryDown | Up | GLock

  // Points in the code, between two statements.
  datatype At =
    | Idle          // outside, or about to return
    | AfterUp       // 738
    | UpCast        // 324
    | UpAdd         // 322
    | CallUp        // 737
    | Take          // 376
    | SetOwner      // 720
    | AfterDown     // 377
    | Test          // 716
    | TryTest       // 693
    | TryDownTest   // 350
    | DownTest      // 365
    | DropTest      // 56
    | DropInc       // 58
    | PreSleep      // 42
    | Wait          // 371
    | PickTest      // 66
    | PostSleep     // 48
    | Woken         // 371, signalled, without the lock
    | Sleeping      // 371, not signalled yet

  // Where a thread is: at a point, or inside atomic_lock (627, 628) or atomic_unlock
  // (634, 635) on the way to a point.
  datatype Pc = Run(at: At) | Acquire(next: At) | Count(next: At) | Uncount(next: At) | Release(next: At)

  // `outer` counts the caller's own atomic_lock calls, one under way included, `hold` its calls of mutex_lock that
  // are not undone yet; `ret` is what a trylock is going to return or has returned.
  datatype Thread = Thread(pc: Pc, op: Op, drops: int, outer: int, hold: int, ret: int)

  // What the object was initialised as: a mutex, or a semaphore with some value.
  datatype Kind = Mutex | Sema(init: int)

  const NONE := -1

  // `holder` and `depth` are the recursive lock; `winner` is the thread that has the mutex;
  // `given` is the number of ups less the number of downs completed.
  datatype State = State(kind: Kind, holder: int, depth: int, recurse: int, value: int, owner: int,
                         winner: int, given: int, threads: map<int, Thread>)

  datatype Action = Go | Start(op: Op) | LeaveOuter | Spurious

  ghost predicate Init(s: State) {
    && s.holder == NONE && s.depth == 0 && s.recurse == 0 && s.owner == NONE && s.winner == NONE && s.given == 0
    && s.value == (if s.kind.Sema? then s.kind.init else 1) && s.value >= 0
    && forall i :: i in s.threads ==> i >= 0 && s.threads[i] == Thread(Run(Idle), NoOp, 0, 0, 0, 0)
  }

  ghost predicate Enabled(s: State, i: int, a: Action) {
    && i in s.threads
    && var th := s.threads[i];
       match a
       case Start(op) => th.pc == Run(Idle) && MayStart(s, th, op)
       case LeaveOuter => th.pc == Run(Idle) && th.outer > 0
       case Spurious => th.pc == Run(Sleeping)
       case Go =>
         && th.pc != Run(Idle) && th.pc != Run(Sleeping)
         && (th.pc.Acquire? ==> s.holder == NONE || s.holder == i)
         && (th.pc == Run(Woken) ==> s.holder == NONE)
  }

  // A mutex is unlocked by a thread that has it.
  ghost predicate MayStart(s: State, th: Thread, op: Op) {
    match op
    case GLock => true
    case MLock | MTry => s.kind == Mutex
    case MUnlock => s.kind == Mutex && th.hold > 0
    case Down | TryDown | Up => s.kind.Sema?
    case NoOp => false
  }

  function Entry(op: Op): At {
    match op
    case MLock => Test
    case MTry => TryTest
    case MUnlock => CallUp
    case Down => DownTest
    case TryDown => TryDownTest
    case Up => UpAdd
    case GLock | NoOp => Idle
  }

  ghost function Broadcast(ts: map<int, Thread>): map<int, Thread> {
    map j | j in ts :: if ts[j].pc == Run(Sleeping) then ts[j].(pc := Run(Woken)) else ts[j]
  }

  // The step of thread `i`.
  ghost function Do(s: State, i: int, a: Action): State
    requires Enabled(s, i, a)
  {
    var th := s.threads[i];
    match a
    case Start(op) => Put(s, i,
        th.(pc := Acquire(Entry(op)), op := op, outer := if op == GLock then th.outer + 1 else th.outer, ret := 1))
    case LeaveOuter => Put(s, i, th.(pc := Uncount(Idle), op := NoOp, outer := th.outer - 1))
    case Spurious => Put(s, i, th.(pc := Run(Woken)))
    case Go =>
      match th.pc
      case Acquire(n) => Put(s.(holder := i, depth := s.depth + 1), i, th.(pc := Count(n)))
      case Count(n) => Put(s.(recurse := s.recurse + 1), i, th.(pc := Run(n)))
      case Uncount(n) => Put(s.(recurse := s.recurse - 1), i, th.(pc := Release(n)))
      case Release(n) => Put(Unlock(s), i, th.(pc := Run(n)))
      case Run(at) => DoAt(s, i, at)
  }

  ghost function Put(s: State, i: int, th: Thread): State {
    s.(threads := s.threads[i := th])
  }

  // One level of the recursive lock is given back.
  ghost function Unlock(s: State): State {
    s.(depth := s.depth - 1, holder := if s.depth == 1 then NONE else s.holder)
  }

  // Where up comes back to (326).
  function UpReturn(op: Op): At {
    if op == Up then Idle else AfterUp
  }

  ghost function DoAt(s: State, i: int, at: At): State
    requires i in s.threads
  {
    var th := s.threads[i];
    match at
    case Test =>
      if s.owner == i then Put(s.(value := s.value - 1), i, th.(pc := Uncount(Idle), hold := th.hold + 1))
      else Put(s, i, th.(pc := Acquire(DownTest)))
    case TryTest =>
      if s.owner == i then Put(s.(value := s.value - 1), i, th.(pc := Uncount(Idle), hold := th.hold + 1))
      else if s.owner == NONE then Put(s, i, th.(pc := Acquire(DownTest)))
      else Put(s, i, th.(pc := Uncount(Idle), ret := 0))
    case TryDownTest =>
      Put(s, i, if s.value > 0 then th.(pc := Acquire(DownTest)) else th.(pc := Uncount(Idle), ret := 1))
    case DownTest => Put(s, i, if s.value <= 0 then th.(pc := Run(DropTest), drops := 0) else th.(pc := Run(Take)))
    case DropTest => Put(s, i, th.(pc := if s.recurse > 1 then Uncount(DropInc) else Run(PreSleep)))
    case DropInc => Put(s, i, th.(pc := Run(DropTest), drops := th.drops + 1))
    case PreSleep => Put(s.(recurse := s.recurse - 1), i, th.(pc := Run(Wait)))
    case Wait => Put(Unlock(s), i, th.(pc := Run(Sleeping)))
    case Woken => Put(s.(holder := i, depth := s.depth + 1), i, th.(pc := Run(PostSleep)))
    case PostSleep => Put(s.(recurse := s.recurse + 1), i, th.(pc := Run(PickTest)))
    case PickTest =>
      if th.drops == 0 then Put(s, i, th.(pc := Run(DownTest)))
      else Put(s, i, th.(pc := Acquire(PickTest), drops := th.drops - 1))
    case Take =>
      if s.kind == Mutex then Put(s.(value := s.value - 1, winner := i), i,
          th.(pc := Uncount(AfterDown), hold := th.hold + 1))
      else Put(s.(value := s.value - 1, given := s.given - 1), i, th.(pc := Uncount(AfterDown)))
    case AfterDown => Put(s, i,
        if th.op == Down then th.(pc := Run(Idle))
        else if th.op == TryDown then th.(pc := Uncount(Idle), ret := 0)
        else th.(pc := Run(SetOwner)))
    case SetOwner => Put(s.(owner := i), i, th.(pc := Uncount(Idle)))
    case CallUp => Put(s, i, th.(pc := Acquire(UpAdd)))
    case UpAdd =>
      var next := if s.value + 1 == 1 then Run(UpCast) else Uncount(UpReturn(th.op));
      if s.kind == Mutex then
        Put(s.(value := s.value + 1, winner := if th.hold == 1 then NONE else s.winner), i,
            th.(pc := next, hold := th.hold - 1))
      else Put(s.(value := s.value + 1, given := s.given + 1), i, th.(pc := next))
    case UpCast => Put(s.(threads := Broadcast(s.threads)), i, th.(pc := Uncount(UpReturn(th.op))))
    case AfterUp =>
      Put(s.(owner := if s.value > 0 then NONE else s.owner, value := if s.value > 0 then 1 else s.value), i,
          th.(pc := Uncount(Idle)))
    case Idle | Sleeping => s
  }

  // Levels of the recursive lock that down, or up, is entered with and one more.
  function Nest(op: Op): int {
    match op
    case MLock | MTry | MUnlock | TryDown => 2
    case Down | Up => 1
    case GLock | NoOp => 0
  }

  // Levels of the recursive lock a thread has at a point, apart from its caller's.
  function LevelAt(th: Thread, at: At): int {
    match at
    case Idle => 0
    case Test | TryTest | CallUp | SetOwner | TryDownTest => 1
    case DownTest | Take | UpAdd | UpCast => Nest(th.op)
    case DropTest | PreSleep | Wait | PostSleep | PickTest => Nest(th.op) - th.drops
    case DropInc => Nest(th.op) - th.drops - 1
    case Sleeping | Woken => -th.outer
    case AfterDown | AfterUp => Nest(th.op) - 1
  }

  // How often a thread has the recursive lock.
  function Held(th: Thread): int {
    th.outer + match th.pc
               case Run(at) => LevelAt(th, at)
               case Acquire(n) => LevelAt(th, n) - 1
               case Count(n) => LevelAt(th, n)
               case Uncount(n) => LevelAt(th, n) + 1
               case Release(n) => LevelAt(th, n) + 1
  }

  // By how much the count kept by hand falls short of the depth.
  function Slack(th: Thread): int {
    if th.pc.Count? || th.pc.Release? || th.pc == Run(Wait) || th.pc == Run(PostSleep) then 1 else 0
  }

  ghost predicate DownOp(op: Op) {
    op == MLock || op == MTry || op == Down || op == TryDown
  }

  // Combinations of points and calls that occur.
  ghost predicate PcOk(th: Thread) {
    match th.pc
    case Acquire(n) => EntryOk(th.op, n)
    case Count(n) => EntryOk(th.op, n)
    case Uncount(n) => ExitOk(th.op, n)
    case Release(n) => ExitOk(th.op, n)
    case Run(at) =>
      match at
      case Idle => true
      case DropTest | PreSleep | Wait | Sleeping | Woken | PostSleep | DropInc => th.op == MLock || th.op == Down
      case Take => DownOp(th.op)
      case AfterDown => DownOp(th.op)
      case UpCast => th.op == MUnlock || th.op == Up
      case AfterUp => th.op == MUnlock
      case SetOwner => th.op == MLock || th.op == MTry
      case _ => EntryOk(th.op, at)
  }

  ghost predicate EntryOk(op: Op, n: At) {
    match n
    case DownTest => DownOp(op)
    case PickTest => op == MLock || op == Down
    case UpAdd => op == MUnlock || op == Up
    case _ => op != NoOp && op != Down && op != Up && n == Entry(op)
  }

  ghost predicate ExitOk(op: Op, n: At) {
    match n
    case Idle => true
    case DropInc => op == MLock || op == Down
    case AfterDown => DownOp(op)
    case AfterUp => op == MUnlock
    case _ => false
  }

  function Point(pc: Pc): At {
    match pc case Run(n) => n case Acquire(n) => n case Count(n) => n case Uncount(n) => n case Release(n) => n
  }

  // Levels given up for sleeping and not taken back.
  ghost predicate DropsOk(th: Thread) {
    var all := th.outer + Nest(th.op) - 1;
    match Point(th.pc)
    case DropTest => 0 <= th.drops <= all
    case DropInc => 0 <= th.drops < all
    case PreSleep | Wait | Sleeping | Woken | PostSleep => th.drops == all
    case PickTest => 0 <= th.drops <= if th.pc.Acquire? then all - 1 else all
    case _ => true
  }

  // Between the decision to sleep and the sleep.
  ghost predicate GoingToSleep(th: Thread) {
    var at := Point(th.pc);
    at == DropTest || at == DropInc || at == PreSleep || at == Wait
  }

  ghost predicate MutexOp(op: Op) {
    op == MLock || op == MTry || op == MUnlock
  }

  // The thread has taken the mutex and is not its owner yet.
  ghost predicate Taking(th: Thread) {
    (th.op == MLock || th.op == MTry) && (Point(th.pc) == AfterDown || Point(th.pc) == SetOwner)
  }

  // The thread has given the mutex up, or one level of it, and may still be its owner.
  ghost predicate Giving(th: Thread) {
    th.op == MUnlock && (Point(th.pc) == UpCast || Point(th.pc) == AfterUp)
  }

  ghost predicate Asking(th: Thread) {
    match Point(th.pc)
    case DownTest | DropTest | DropInc | PreSleep | Wait | Sleeping | Woken | PostSleep | PickTest | Take => true
    case _ => false
  }

  // What the code relies on of the shared state at a point.
  ghost predicate ViewOk(s: State, i: int)
    requires i in s.threads
  {
    var th := s.threads[i];
    && (GoingToSleep(th) ==> s.value <= 0)
    && (Point(th.pc) == Take ==> s.value > 0)
    && ((th.op == MTry || th.op == TryDown) && Point(th.pc) == DownTest ==> s.value > 0)
    && (Point(th.pc) == UpCast ==> s.value == 1)
    && (th.pc == Run(Sleeping) ==> s.value <= 0 || Casting(s))
  }

  // A thread is about to wake the sleepers up.
  ghost predicate Casting(s: State) {
    s.holder in s.threads && s.threads[s.holder].pc == Run(UpCast)
  }

  ghost predicate HoldOk(s: State, i: int)
    requires i in s.threads
  {
    var th := s.threads[i];
    && (MutexOp(th.op) ==> s.kind == Mutex) && (th.op == Down || th.op == TryDown || th.op == Up ==> s.kind.Sema?)
    && th.hold >= 0 && (th.hold > 0 <==> s.winner == i)
    && (th.op == MUnlock && (Point(th.pc) == CallUp || Point(th.pc) == UpAdd) ==> th.hold > 0)
    && (Asking(th) ==> th.hold == 0)
    && (Taking(th) ==> th.hold == 1)
    && (Giving(th) ==> th.hold > 0 || s.winner == NONE)
  }

  ghost predicate LockOk(s: State, i: int)
    requires i in s.threads
  {
    var th := s.threads[i];
    && th.outer >= 0 && Held(th) >= 0 && (th.pc.Count? ==> Held(th) > 0)
    && (s.holder == i <==> Held(th) > 0)
    && (s.holder == i ==> s.depth == Held(th) && s.recurse == s.depth - Slack(th))
  }

  ghost predicate ThreadOk(s: State, i: int)
    requires i in s.threads
  {
    i >= 0 && PcOk(s.threads[i]) && DropsOk(s.threads[i]) && LockOk(s, i) && ViewOk(s, i) && HoldOk(s, i)
  }

  // The thread the mutex names as its owner.
  ghost function OwnerOf(s: State): int {
    if s.holder in s.threads && Taking(s.threads[s.holder]) then NONE
    else if s.holder in s.threads && Giving(s.threads[s.holder]) then s.holder
    else s.winner
  }

  ghost predicate GlobalOk(s: State) {
    && NONE !in s.threads && (s.holder == NONE || s.holder in s.threads)
    && (s.holder == NONE ==> s.depth == 0 && s.recurse == 0)
    && match s.kind
       case Mutex =>
         && (s.winner == NONE || (s.winner in s.threads && s.threads[s.winner].hold > 0))
         && s.value == 1 - (if s.winner in s.threads then s.threads[s.winner].hold else 0)
         && s.owner == OwnerOf(s)
       case Sema(init) => s.owner == NONE && s.winner == NONE && s.value == init + s.given && s.value >= 0
  }

  // The invariant of every reachable state.
  ghost predicate Inv(s: State) {
    GlobalOk(s) && forall i {:trigger ThreadOk(s, i)} :: i in s.threads ==> ThreadOk(s, i)
  }

  lemma InitOk(s: State)
    requires Init(s)
    ensures Inv(s)
  {
  }

  // The stepping thread, by where it is. This and the two predicates below are each one
  // condition to their users: comparing with `true` keeps their parts together.
  ghost predicate Ready(s: State, i: int, a: Action) {
    (GlobalOk(s) && Enabled(s, i, a) && ThreadOk(s, i)) == true
  }

  ghost predicate Kept(s: State, i: int) {
    (i in s.threads && ThreadOk(s, i)) == true
  }

  // What the step of thread `i` leaves to the other threads.
  ghost predicate Apart(s: State, s': State, i: int, j: int) {
    (
      && j in s.threads && j in s'.threads && s'.kind == s.kind
      && (s'.holder == s.holder || (s.holder in {NONE, i} && s'.holder in {NONE, i}))
      && (s.holder == j ==> s'.depth == s.depth && s'.recurse == s.recurse && s'.value == s.value)
      && (s'.winner == j <==> s.winner == j) && (s.holder == j ==> s'.winner == s.winner)
      && (s'.threads[j] == s.threads[j] || (s.threads[j].pc == Run(Sleeping)
        && s'.threads[j] == s.threads[j].(pc := Run(Woken))))
      && (s'.threads[j].pc == Run(Sleeping) ==> s'.value <= 0 || Casting(s'))
    ) == true
  }

  lemma ApartKeepsLock(s: State, s': State, i: int, j: int)
    requires i != j && Apart(s, s', i, j) && Kept(s, j)
    ensures j in s'.threads && PcOk(s'.threads[j]) && DropsOk(s'.threads[j]) && LockOk(s', j)
  {
    hide ViewOk, HoldOk;
  }

  lemma ApartKeepsView(s: State, s': State, i: int, j: int)
    requires i != j && Apart(s, s', i, j) && Kept(s, j)
    ensures j in s'.threads && ViewOk(s', j)
  {
    hide HoldOk;
  }

  lemma ApartKeepsHold(s: State, s': State, i: int, j: int)
    requires i != j && Apart(s, s', i, j) && Kept(s, j)
    ensures j in s'.threads && HoldOk(s', j)
  {
    hide ViewOk;
  }

  lemma ApartKeeps(s: State, s': State, i: int, j: int)
    requires i != j && Apart(s, s', i, j) && Kept(s, j)
    ensures Kept(s', j)
  {
    ApartKeepsLock(s, s', i, j);
    ApartKeepsView(s, s', i, j);
    ApartKeepsHold(s, s', i, j);
    KeptParts(s, j);
    hide Apart, Kept, PcOk, DropsOk, LockOk, ViewOk, HoldOk;
    Whole(s', j);
  }

  lemma KeptParts(s: State, j: int)
    requires Kept(s, j)
    ensures j in s.threads && j >= 0 && PcOk(s.threads[j]) && DropsOk(s.threads[j])
    ensures LockOk(s, j) && ViewOk(s, j) && HoldOk(s, j)
  {
  }

  lemma Whole(s: State, i: int)
    requires i in s.threads && i >= 0 && PcOk(s.threads[i]) && DropsOk(s.threads[i])
    requires LockOk(s, i)
    requires ViewOk(s, i)
    requires HoldOk(s, i)
    ensures Kept(s, i)
  {
  }

  lemma StartKept(s: State, i: int, a: Action)
    requires Ready(s, i, a) && a.Start?
    ensures Kept(Do(s, i, a), i)
  {
    Whole(Do(s, i, a), i);
    hide PcOk, DropsOk, LockOk, ViewOk, HoldOk, Do;
  }

  lemma StartGlobal(s: State, i: int, a: Action)
    requires Ready(s, i, a) && a.Start?
    ensures GlobalOk(Do(s, i, a))
  {
  }

  lemma LeaveKept(s: State, i: int, a: Action)
    requires Ready(s, i, a) && a == LeaveOuter
    ensures Kept(Do(s, i, a), i)
  {
    Whole(Do(s, i, a), i);
    hide PcOk, DropsOk, LockOk, ViewOk, HoldOk, Do;
  }

  lemma LeaveGlobal(s: State, i: int, a: Action)
    requires Ready(s, i, a) && a == LeaveOuter
    ensures GlobalOk(Do(s, i, a))
  {
  }

  lemma SpuriousKept(s: State, i: int, a: Action)
    requires Ready(s, i, a) && a == Spurious
    ensures Kept(Do(s, i, a), i)
  {
    Whole(Do(s, i, a), i);
    hide PcOk, DropsOk, LockOk, ViewOk, HoldOk, Do;
  }

  lemma SpuriousGlobal(s: State, i: int, a: Action)
    requires Ready(s, i, a) && a == Spurious
    ensures GlobalOk(Do(s, i, a))
  {
  }

  lemma AcquireKept(s: State, i: int)
    requires Ready(s, i, Go) && s.threads[i].pc.Acquire?
    ensures Kept(Do(s, i, Go), i)
  {
    Whole(Do(s, i, Go), i);
    hide PcOk, DropsOk, LockOk, ViewOk, HoldOk, Do;
  }

  lemma AcquireGlobal(s: State, i: int)
    requires Ready(s, i, Go) && s.threads[i].pc.Acquire?
    ensures GlobalOk(Do(s, i, Go))
  {
  }

  lemma CountKept(s: State, i: int)
    requires Ready(s, i, Go) && s.threads[i].pc.Count?
    ensures Kept(Do(s, i, Go), i)
  {
    Whole(Do(s, i, Go), i);
    hide PcOk, DropsOk, LockOk, ViewOk, HoldOk, Do;
  }

  lemma CountGlobal(s: State, i: int)
    requires Ready(s, i, Go) && s.threads[i].pc.Count?
    ensures GlobalOk(Do(s, i, Go))
  {
  }

  lemma UncountKept(s: State, i: int)
    requires Ready(s, i, Go) && s.threads[i].pc.Uncount?
    ensures Kept(Do(s, i, Go), i)
  {
    Whole(Do(s, i, Go), i);
    hide PcOk, DropsOk, LockOk, ViewOk, HoldOk, Do;
  }

  lemma UncountGlobal(s: State, i: int)
    requires Ready(s, i, Go) && s.threads[i].pc.Uncount?
    ensures GlobalOk(Do(s, i, Go))
  {
  }

  lemma ReleaseKept(s: State, i: int)
    requires Ready(s, i, Go) && s.threads[i].pc.Release?
    ensures Kept(Do(s, i, Go), i)
  {
    Whole(Do(s, i, Go), i);
    hide PcOk, DropsOk, LockOk, ViewOk, HoldOk, Do;
  }

  lemma ReleaseGlobal(s: State, i: int)
    requires Ready(s, i, Go) && s.threads[i].pc.Release?
    ensures GlobalOk(Do(s, i, Go))
  {
  }

  lemma TestKept(s: State, i: int)
    requires Ready(s, i, Go) && s.threads[i].pc == Run(Test)
    ensures Kept(Do(s, i, Go), i)
  {
    Whole(Do(s, i, Go), i);
    hide PcOk, DropsOk, LockOk, ViewOk, HoldOk, Do;
  }

  lemma TestGlobal(s: State, i: int)
    requires Ready(s, i, Go) && s.threads[i].pc == Run(Test)
    ensures GlobalOk(Do(s, i, Go))
  {
  }

  lemma TryTestKept(s: State, i: int)
    requires Ready(s, i, Go) && s.threads[i].pc == Run(TryTest)
    ensures Kept(Do(s, i, Go), i)
  {
    Whole(Do(s, i, Go), i);
    hide PcOk, DropsOk, LockOk, ViewOk, HoldOk, Do;
  }

  lemma TryTestGlobal(s: State, i: int)
    requires Ready(s, i, Go) && s.threads[i].pc == Run(TryTest)
    ensures GlobalOk(Do(s, i, Go))
  {
  }

  lemma TryDownTestKept(s: State, i: int)
    requires Ready(s, i, Go) && s.threads[i].pc == Run(TryDownTest)
    ensures Kept(Do(s, i, Go), i)
  {
    Whole(Do(s, i, Go), i);
    hide PcOk, DropsOk, LockOk, ViewOk, HoldOk, Do;
  }

  lemma TryDownTestGlobal(s: State, i: int)
    requires Ready(s, i, Go) && s.threads[i].pc == Run(TryDownTest)
    ensures GlobalOk(Do(s, i, Go))
  {
  }

  lemma DownTestKept(s: State, i: int)
    requires Ready(s, i, Go) && s.threads[i].pc == Run(DownTest)
    ensures Kept(Do(s, i, Go), i)
  {
    Whole(Do(s, i, Go), i);
    hide PcOk, DropsOk, LockOk, ViewOk, HoldOk, Do;
  }

  lemma DownTestGlobal(s: State, i: int)
    requires Ready(s, i, Go) && s.threads[i].pc == Run(DownTest)
    ensures GlobalOk(Do(s, i, Go))
  {
  }

  lemma DropTestKept(s: State, i: int)
    requires Ready(s, i, Go) && s.threads[i].pc == Run(DropTest)
    ensures Kept(Do(s, i, Go), i)
  {
    Whole(Do(s, i, Go), i);
    hide PcOk, DropsOk, LockOk, ViewOk, HoldOk, Do;
  }

  lemma DropTestGlobal(s: State, i: int)
    requires Ready(s, i, Go) && s.threads[i].pc == Run(DropTest)
    ensures GlobalOk(Do(s, i, Go))
  {
  }

  lemma DropIncKept(s: State, i: int)
    requires Ready(s, i, Go) && s.threads[i].pc == Run(DropInc)
    ensures Kept(Do(s, i, Go), i)
  {
    Whole(Do(s, i, Go), i);
    hide PcOk, DropsOk, LockOk, ViewOk, HoldOk, Do;
  }

  lemma DropIncGlobal(s: State, i: int)
    requires Ready(s, i, Go) && s.threads[i].pc == Run(DropInc)
    ensures GlobalOk(Do(s, i, Go))
  {
  }

  lemma PreSleepKept(s: State, i: int)
    requires Ready(s, i, Go) && s.threads[i].pc == Run(PreSleep)
    ensures Kept(Do(s, i, Go), i)
  {
    Whole(Do(s, i, Go), i);
    hide PcOk, DropsOk, LockOk, ViewOk, HoldOk, Do;
  }

  lemma PreSleepGlobal(s: State, i: int)
    requires Ready(s, i, Go) && s.threads[i].pc == Run(PreSleep)
    ensures GlobalOk(Do(s, i, Go))
  {
  }

  lemma WaitKept(s: State, i: int)
    requires Ready(s, i, Go) && s.threads[i].pc == Run(Wait)
    ensures Kept(Do(s, i, Go), i)
  {
    Whole(Do(s, i, Go), i);
    hide PcOk, DropsOk, LockOk, ViewOk, HoldOk, Do;
  }

  lemma WaitGlobal(s: State, i: int)
    requires Ready(s, i, Go) && s.threads[i].pc == Run(Wait)
    ensures GlobalOk(Do(s, i, Go))
  {
  }

  lemma WokenKept(s: State, i: int)
    requires Ready(s, i, Go) && s.threads[i].pc == Run(Woken)
    ensures Kept(Do(s, i, Go), i)
  {
    Whole(Do(s, i, Go), i);
    hide PcOk, DropsOk, LockOk, ViewOk, HoldOk, Do;
  }

  lemma WokenGlobal(s: State, i: int)
    requires Ready(s, i, Go) && s.threads[i].pc == Run(Woken)
    ensures GlobalOk(Do(s, i, Go))
  {
  }

  lemma PostSleepKept(s: State, i: int)
    requires Ready(s, i, Go) && s.threads[i].pc == Run(PostSleep)
    ensures Kept(Do(s, i, Go), i)
  {
    Whole(Do(s, i, Go), i);
    hide PcOk, DropsOk, LockOk, ViewOk, HoldOk, Do;
  }

  lemma PostSleepGlobal(s: State, i: int)
    requires Ready(s, i, Go) && s.threads[i].pc == Run(PostSleep)
    ensures GlobalOk(Do(s, i, Go))
  {
  }

  lemma PickedUpKept(s: State, i: int)
    requires Ready(s, i, Go) && s.threads[i].pc == Run(PickTest) && s.threads[i].drops == 0
    ensures Kept(Do(s, i, Go), i)
  {
    Whole(Do(s, i, Go), i);
    hide PcOk, DropsOk, LockOk, ViewOk, HoldOk, Do;
  }

  lemma PickTestKept(s: State, i: int)
    requires Ready(s, i, Go) && s.threads[i].pc == Run(PickTest) && s.threads[i].drops != 0
    ensures Kept(Do(s, i, Go), i)
  {
    Whole(Do(s, i, Go), i);
    hide PcOk, DropsOk, LockOk, ViewOk, HoldOk, Do;
  }

  lemma PickTestGlobal(s: State, i: int)
    requires Ready(s, i, Go) && s.threads[i].pc == Run(PickTest)
    ensures GlobalOk(Do(s, i, Go))
  {
  }

  lemma TakeKept(s: State, i: int)
    requires Ready(s, i, Go) && s.threads[i].pc == Run(Take)
    ensures Kept(Do(s, i, Go), i)
  {
    Whole(Do(s, i, Go), i);
    hide PcOk, DropsOk, LockOk, ViewOk, HoldOk, Do;
  }

  lemma TakeGlobal(s: State, i: int)
    requires Ready(s, i, Go) && s.threads[i].pc == Run(Take)
    ensures GlobalOk(Do(s, i, Go))
  {
  }

  lemma SetOwnerKept(s: State, i: int)
    requires Ready(s, i, Go) && s.threads[i].pc == Run(SetOwner)
    ensures Kept(Do(s, i, Go), i)
  {
    Whole(Do(s, i, Go), i);
    hide PcOk, DropsOk, LockOk, ViewOk, HoldOk, Do;
  }

  lemma SetOwnerGlobal(s: State, i: int)
    requires Ready(s, i, Go) && s.threads[i].pc == Run(SetOwner)
    ensures GlobalOk(Do(s, i, Go))
  {
  }

  lemma CallUpKept(s: State, i: int)
    requires Ready(s, i, Go) && s.threads[i].pc == Run(CallUp)
    ensures Kept(Do(s, i, Go), i)
  {
    Whole(Do(s, i, Go), i);
    hide PcOk, DropsOk, LockOk, ViewOk, HoldOk, Do;
  }

  lemma CallUpGlobal(s: State, i: int)
    requires Ready(s, i, Go) && s.threads[i].pc == Run(CallUp)
    ensures GlobalOk(Do(s, i, Go))
  {
  }

  lemma AfterDownKept(s: State, i: int)
    requires Ready(s, i, Go) && s.threads[i].pc == Run(AfterDown)
    ensures Kept(Do(s, i, Go), i)
  {
    Whole(Do(s, i, Go), i);
    hide PcOk, DropsOk, LockOk, ViewOk, HoldOk, Do;
  }

  lemma AfterDownGlobal(s: State, i: int)
    requires Ready(s, i, Go) && s.threads[i].pc == Run(AfterDown)
    ensures GlobalOk(Do(s, i, Go))
  {
  }

  lemma UpAddKept(s: State, i: int)
    requires Ready(s, i, Go) && s.threads[i].pc == Run(UpAdd)
    ensures Kept(Do(s, i, Go), i)
  {
    Whole(Do(s, i, Go), i);
    hide PcOk, DropsOk, LockOk, ViewOk, HoldOk, Do;
  }

  lemma UpAddGlobal(s: State, i: int)
    requires Ready(s, i, Go) && s.threads[i].pc == Run(UpAdd)
    ensures GlobalOk(Do(s, i, Go))
  {
  }

  lemma UpCastKept(s: State, i: int)
    requires Ready(s, i, Go) && s.threads[i].pc == Run(UpCast)
    ensures Kept(Do(s, i, Go), i)
  {
    Whole(Do(s, i, Go), i);
    hide PcOk, DropsOk, LockOk, ViewOk, HoldOk, Do;
  }

  lemma UpCastGlobal(s: State, i: int)
    requires Ready(s, i, Go) && s.threads[i].pc == Run(UpCast)
    ensures GlobalOk(Do(s, i, Go))
  {
  }

  lemma AfterUpKept(s: State, i: int)
    requires Ready(s, i, Go) && s.threads[i].pc == Run(AfterUp)
    ensures Kept(Do(s, i, Go), i)
  {
    Whole(Do(s, i, Go), i);
    hide PcOk, DropsOk, LockOk, ViewOk, HoldOk, Do;
  }

  lemma AfterUpGlobal(s: State, i: int)
    requires Ready(s, i, Go) && s.threads[i].pc == Run(AfterUp)
    ensures GlobalOk(Do(s, i, Go))
  {
  }

  lemma StartApart(s: State, i: int, a: Action, j: int)
    requires Ready(s, i, a) && a.Start? && Kept(s, j) && i != j
    ensures Apart(s, Do(s, i, a), i, j)
  {
    hide HoldOk;
  }

  lemma LeaveApart(s: State, i: int, a: Action, j: int)
    requires Ready(s, i, a) && a == LeaveOuter && Kept(s, j) && i != j
    ensures Apart(s, Do(s, i, a), i, j)
  {
    hide HoldOk;
  }

  lemma SpuriousApart(s: State, i: int, a: Action, j: int)
    requires Ready(s, i, a) && a == Spurious && Kept(s, j) && i != j
    ensures Apart(s, Do(s, i, a), i, j)
  {
    hide HoldOk;
  }

  lemma EnterApart(s: State, i: int, j: int)
    requires Ready(s, i, Go) && (s.threads[i].pc.Acquire? || s.threads[i].pc.Count?) && Kept(s, j) && i != j
    ensures Apart(s, Do(s, i, Go), i, j)
  {
    hide HoldOk;
  }

  lemma ExitApart(s: State, i: int, j: int)
    requires Ready(s, i, Go) && (s.threads[i].pc.Uncount? || s.threads[i].pc.Release?) && Kept(s, j) && i != j
    ensures Apart(s, Do(s, i, Go), i, j)
  {
    hide HoldOk;
  }

  lemma LookApart(s: State, i: int, j: int)
    requires Ready(s, i, Go) && s.threads[i].pc.Run? && s.threads[i].pc.at in {TryDownTest, DownTest, DropTest}
      && Kept(s, j) && i != j
    ensures Apart(s, Do(s, i, Go), i, j)
  {
    hide HoldOk;
  }

  lemma MoveApart(s: State, i: int, j: int)
    requires Ready(s, i, Go) && s.threads[i].pc.Run? && s.threads[i].pc.at in {DropInc, PickTest, AfterDown, CallUp}
      && Kept(s, j) && i != j
    ensures Apart(s, Do(s, i, Go), i, j)
  {
    hide HoldOk;
  }

  lemma OwnerApart(s: State, i: int, j: int)
    requires Ready(s, i, Go) && s.threads[i].pc.Run? && s.threads[i].pc.at in {Test, TryTest, SetOwner, AfterUp}
      && Kept(s, j) && i != j
    ensures Apart(s, Do(s, i, Go), i, j)
  {
    hide HoldOk;
  }

  lemma SleepApart(s: State, i: int, j: int)
    requires Ready(s, i, Go) && s.threads[i].pc.Run? && s.threads[i].pc.at in {PreSleep, PostSleep, Wait, Woken}
      && Kept(s, j) && i != j
    ensures Apart(s, Do(s, i, Go), i, j)
  {
    hide HoldOk;
  }

  lemma ValueApart(s: State, i: int, j: int)
    requires Ready(s, i, Go) && s.threads[i].pc.Run? && s.threads[i].pc.at in {Take, UpAdd} && Kept(s, j) && i != j
    ensures Apart(s, Do(s, i, Go), i, j)
  {
  }

  lemma CastApart(s: State, i: int, j: int)
    requires Ready(s, i, Go) && s.threads[i].pc == Run(UpCast) && Kept(s, j) && i != j
    ensures Apart(s, Do(s, i, Go), i, j)
  {
  }

  // What a thread that may step can be up to.
  lemma Steps(s: State, i: int, a: Action)
    requires Ready(s, i, a)
    ensures i in s.threads && (a == Go ==> s.threads[i].pc != Run(Idle) && s.threads[i].pc != Run(Sleeping))
  {
  }

  lemma OwnKeeps(s: State, i: int, a: Action)
    requires Ready(s, i, a)
    ensures Enabled(s, i, a) && Kept(Do(s, i, a), i) && GlobalOk(Do(s, i, a))
  {
    Steps(s, i, a);
    assert Enabled(s, i, a);
    hide Ready, Enabled, Do, Kept, ThreadOk, GlobalOk;
    match a
    case Start(_) =>
      StartKept(s, i, a);
      StartGlobal(s, i, a);
    case LeaveOuter =>
      LeaveKept(s, i, a);
      LeaveGlobal(s, i, a);
    case Spurious =>
      SpuriousKept(s, i, a);
      SpuriousGlobal(s, i, a);
    case Go =>
      match s.threads[i].pc
      case Run(at) => PointKeeps(s, i);
      case Acquire(_) =>
        AcquireKept(s, i);
        AcquireGlobal(s, i);
      case Count(_) =>
        CountKept(s, i);
        CountGlobal(s, i);
      case Uncount(_) =>
        UncountKept(s, i);
        UncountGlobal(s, i);
      case Release(_) =>
        ReleaseKept(s, i);
        ReleaseGlobal(s, i);
  }

  lemma PointKeeps(s: State, i: int)
    requires Ready(s, i, Go) && s.threads[i].pc.Run?
    ensures Enabled(s, i, Go) && Kept(Do(s, i, Go), i) && GlobalOk(Do(s, i, Go))
  {
    Steps(s, i, Go);
    assert Enabled(s, i, Go);
    hide Ready, Enabled, Do, Kept, ThreadOk, GlobalOk;
    match s.threads[i].pc.at
    case Idle =>
    case Sleeping =>
    case Test =>
      TestKept(s, i);
      TestGlobal(s, i);
    case TryTest =>
      TryTestKept(s, i);
      TryTestGlobal(s, i);
    case TryDownTest =>
      TryDownTestKept(s, i);
      TryDownTestGlobal(s, i);
    case DownTest =>
      DownTestKept(s, i);
      DownTestGlobal(s, i);
    case DropTest =>
      DropTestKept(s, i);
      DropTestGlobal(s, i);
    case DropInc =>
      DropIncKept(s, i);
      DropIncGlobal(s, i);
    case PreSleep =>
      PreSleepKept(s, i);
      PreSleepGlobal(s, i);
    case Wait =>
      WaitKept(s, i);
      WaitGlobal(s, i);
    case Woken =>
      WokenKept(s, i);
      WokenGlobal(s, i);
    case PostSleep =>
      PostSleepKept(s, i);
      PostSleepGlobal(s, i);
    case PickTest =>
      if s.threads[i].drops == 0 {
        PickedUpKept(s, i);
      } else {
        PickTestKept(s, i);
      }
      PickTestGlobal(s, i);
    case Take =>
      TakeKept(s, i);
      TakeGlobal(s, i);
    case SetOwner =>
      SetOwnerKept(s, i);
      SetOwnerGlobal(s, i);
    case CallUp =>
      CallUpKept(s, i);
      CallUpGlobal(s, i);
    case AfterDown =>
      AfterDownKept(s, i);
      AfterDownGlobal(s, i);
    case UpAdd =>
      UpAddKept(s, i);
      UpAddGlobal(s, i);
    case UpCast =>
      UpCastKept(s, i);
      UpCastGlobal(s, i);
    case AfterUp =>
      AfterUpKept(s, i);
      AfterUpGlobal(s, i);
  }

  lemma OthersKeep(s: State, i: int, a: Action, j: int)
    requires i != j && Ready(s, i, a) && Kept(s, j)
    ensures Enabled(s, i, a) && Kept(Do(s, i, a), j)
  {
    Steps(s, i, a);
    assert Enabled(s, i, a);
    hide Ready, Enabled, Do, Apart, Kept, ThreadOk, GlobalOk;
    match a {
      case Start(_) => StartApart(s, i, a, j);
      case LeaveOuter => LeaveApart(s, i, a, j);
      case Spurious => SpuriousApart(s, i, a, j);
      case Go =>
        if s.threads[i].pc.Acquire? || s.threads[i].pc.Count? {
          EnterApart(s, i, j);
        } else if s.threads[i].pc.Uncount? || s.threads[i].pc.Release? {
          ExitApart(s, i, j);
        } else if s.threads[i].pc.at == UpCast {
          CastApart(s, i, j);
        } else {
          PointApart(s, i, j);
        }
    }
    ApartKeeps(s, Do(s, i, a), i, j);
  }

  lemma PointApart(s: State, i: int, j: int)
    requires Ready(s, i, Go) && s.threads[i].pc.Run? && s.threads[i].pc.at != UpCast && Kept(s, j) && i != j
    ensures Enabled(s, i, Go) && Apart(s, Do(s, i, Go), i, j)
  {
    Steps(s, i, Go);
    assert Enabled(s, i, Go);
    hide Ready, Enabled, Do, Apart, Kept, ThreadOk, GlobalOk;
    match s.threads[i].pc.at
    case Test | TryTest | SetOwner | AfterUp => OwnerApart(s, i, j);
    case PreSleep | PostSleep | Wait | Woken => SleepApart(s, i, j);
    case Take | UpAdd => ValueApart(s, i, j);
    case Idle | Sleeping | UpCast =>
    case TryDownTest | DownTest | DropTest => LookApart(s, i, j);
    case _ => MoveApart(s, i, j);
  }

  lemma SameThreads(s: State, i: int, a: Action)
    requires Enabled(s, i, a)
    ensures Do(s, i, a).threads.Keys == s.threads.Keys && Do(s, i, a).kind == s.kind
  {
  }

  // Every step of every thread keeps the invariant.
  lemma StepKeeps(s: State, i: int, a: Action)
    requires Inv(s) && Enabled(s, i, a)
    ensures Inv(Do(s, i, a))
  {
    hide Do, ThreadOk, GlobalOk;
    var s' := Do(s, i, a);
    assert ThreadOk(s, i);
    OwnKeeps(s, i, a);
    SameThreads(s, i, a);
    forall j | j in s'.threads ensures ThreadOk(s', j) {
      assert j in s'.threads.Keys;
      if j != i {
        assert Kept(s, j);
        OthersKeep(s, i, a, j);
      }
    }
  }

  ghost predicate Next(s: State, s': State) {
    exists i, a :: Enabled(s, i, a) && s' == Do(s, i, a)
  }

  // A run of any length, the threads taking steps in any order.
  ghost predicate Execution(run: seq<State>) {
    run != [] && Init(run[0]) && forall k :: 0 <= k < |run| - 1 ==> Next(run[k], run[k + 1])
  }

  lemma {:induction false} RunKeeps(run: seq<State>, k: nat)
    requires Execution(run) && k < |run|
    ensures Inv(run[k])
  {
    if k == 0 {
      InitOk(run[0]);
    } else {
      RunKeeps(run, k - 1);
      assert Next(run[k - 1], run[k - 1 + 1]);
      var i, a :| Enabled(run[k - 1], i, a) && run[k] == Do(run[k - 1], i, a);
      StepKeeps(run[k - 1], i, a);
    }
  }

  // Nobody is inside the functions modelled.
  ghost predicate Free(s: State) {
    s.holder == NONE
  }

  // In every run a mutex is held by one thread at most, and its value tells how often.
  lemma MutualExclusion(run: seq<State>, k: nat, i: int, j: int)
    requires Execution(run) && k < |run| && run[k].kind == Mutex && i in run[k].threads && j in run[k].threads
    ensures i != j && run[k].threads[i].hold > 0 ==> run[k].threads[j].hold == 0
    ensures run[k].threads[i].hold > 0 ==> run[k].value == 1 - run[k].threads[i].hold
    ensures run[k].winner == NONE <==> run[k].value == 1
    ensures Free(run[k]) ==>
        (run[k].owner == i <==> run[k].threads[i].hold > 0) && (run[k].owner == NONE <==> run[k].value == 1)
  {
    RunKeeps(run, k);
    var s := run[k];
    assert ThreadOk(s, i) && ThreadOk(s, j);
  }

  // Whoever sleeps, sleeps because there is nothing to be had: the mutex is taken by some
  // thread, or the semaphore is used up. Otherwise its wakeup is under way.
  lemma NoLostWakeup(run: seq<State>, k: nat, i: int)
    requires Execution(run) && k < |run| && i in run[k].threads && run[k].threads[i].pc == Run(Sleeping)
    ensures Casting(run[k]) || run[k].value <= 0
    ensures Free(run[k]) && run[k].kind == Mutex ==>
        run[k].winner in run[k].threads && run[k].threads[run[k].winner].hold > 0 && run[k].winner != i
    ensures Free(run[k]) && run[k].kind.Sema? ==> run[k].value == 0 && -run[k].given == run[k].kind.init
  {
    RunKeeps(run, k);
    assert ThreadOk(run[k], i);
  }

  // The lock is held once when a thread goes to sleep, so that sleeping frees it; and the
  // thread comes back from any call with the lock as deep as it had it before.
  lemma DepthRestored(run: seq<State>, k: nat, i: int)
    requires Execution(run) && k < |run| && i in run[k].threads
    ensures run[k].threads[i].pc == Run(Wait) ==> run[k].holder == i && run[k].depth == 1 && run[k].recurse == 0
    ensures run[k].threads[i].pc == Run(Sleeping) ==> run[k].holder != i
    ensures run[k].threads[i].pc == Run(Idle) ==>
      (run[k].holder == i <==> run[k].threads[i].outer > 0)
      && (run[k].holder == i ==> run[k].depth == run[k].threads[i].outer == run[k].recurse)
    ensures run[k].threads[i].pc == Run(Take) ==> run[k].depth == run[k].threads[i].outer + Nest(run[k].threads[i].op)
  {
    RunKeeps(run, k);
    assert ThreadOk(run[k], i);
  }

  // The caller's own depth changes only through atomic_lock and atomic_unlock.
  lemma OuterStays(s: State, i: int, a: Action, j: int)
    requires Enabled(s, i, a) && j in s.threads
    ensures j in Do(s, i, a).threads
    ensures Do(s, i, a).threads[j].outer == s.threads[j].outer
      || (j == i && (a == LeaveOuter || a == Start(GLock)))
  {
  }

  // A semaphore lets through no more than it was given, and trying never sleeps.
  lemma Permits(run: seq<State>, k: nat, i: int)
    requires Execution(run) && k < |run| && i in run[k].threads
    ensures run[k].kind.Sema? ==> run[k].value == run[k].kind.init + run[k].given >= 0
    ensures run[k].threads[i].op == MTry || run[k].threads[i].op == TryDown ==> !GoingToSleep(run[k].threads[i])
  {
    RunKeeps(run, k);
    assert ThreadOk(run[k], i);
  }

  // A step: the thread that takes it, and what it does.
  datatype Step = Step(who: int, what: Action)

  // The steps that a run has taken.
  ghost predicate Schedule(run: seq<State>, steps: seq<Step>) {
    && run != [] && Init(run[0]) && |run| == |steps| + 1
    && forall k :: 0 <= k < |steps| ==>
        Enabled(run[k], steps[k].who, steps[k].what) && run[k + 1] == Do(run[k], steps[k].who, steps[k].what)
  }

  // Every run has steps, and whatever has steps is a run.
  lemma {:induction false} StepsOf(run: seq<State>) returns (steps: seq<Step>)
    requires Execution(run)
    ensures Schedule(run, steps)
  {
    hide Init, Enabled, Do;
    var n := |run| - 1;
    if n == 0 {
      steps := [];
    } else {
      assert forall k :: 0 <= k < |run[..n]| - 1 ==> Next(run[..n][k], run[..n][k + 1]) by {
        forall k | 0 <= k < n - 1 ensures Next(run[..n][k], run[..n][k + 1]) {
          assert Next(run[k], run[k + 1]);
        }
      }
      steps := StepsOf(run[..n]);
      assert Next(run[n - 1], run[n - 1 + 1]);
      var i, a :| Enabled(run[n - 1], i, a) && run[n] == Do(run[n - 1], i, a);
      steps := steps + [Step(i, a)];
    }
  }

  lemma Scheduled(run: seq<State>, steps: seq<Step>)
    requires Schedule(run, steps)
    ensures Execution(run)
  {
    hide Init, Enabled, Do;
    forall k | 0 <= k < |run| - 1 ensures Next(run[k], run[k + 1]) {
      assert Enabled(run[k], steps[k].who, steps[k].what);
    }
  }

  // The permits that thread `i` has taken in the steps from `from` up to `to`, less those it
  // has given.
  ghost function Taken(run: seq<State>, steps: seq<Step>, i: int, from: nat, to: nat): int
    requires to < |run| == |steps| + 1
  {
    if to <= from then 0
    else
      Taken(run, steps, i, from, to - 1)
        + if steps[to - 1].who == i then run[to - 1].given - run[to].given else 0
  }

  // Thread `i` makes a call with step `from`, and has come back from it in state `to`.
  ghost predicate Call(run: seq<State>, steps: seq<Step>, i: int, from: nat, to: nat) {
    && Schedule(run, steps) && from < to < |run|
    && steps[from].who == i && (steps[from].what.Start? || steps[from].what == LeaveOuter)
    && i in run[to].threads && run[to].threads[i].pc == Run(Idle)
    && forall k :: from < k < to ==> i in run[k].threads && run[k].threads[i].pc != Run(Idle)
  }

  // Nobody but thread `i` has the mutex.
  ghost predicate Available(s: State, i: int) {
    forall j :: j in s.threads && j != i ==> s.threads[j].hold == 0
  }

  // What a call that began in state `th0` has got by the time the thread is in state `th`:
  // `could` is whether a trying call has seen that there was something to be had, and `taken`
  // the permits taken.
  ghost predicate Sofar(th0: Thread, th: Thread, a: Action, could: bool, taken: int) {
    && th.outer == th0.outer + (if a == Start(GLock) then 1 else if a == LeaveOuter then -1 else 0)
    && th.op == (if a.Start? then a.op else NoOp)
    && match th.op
       case MLock => taken == 0 && th.hold == th0.hold + if Passed(th, DownTest) then 1 else 0
       case MTry =>
         && taken == 0
         && if Point(th.pc) == TryTest then th.hold == th0.hold && th.ret == 1
            else if Point(th.pc) == Idle then
              th.hold == th0.hold + (if could then 1 else 0) && th.ret == (if could then 1 else 0)
            else could && th.hold == th0.hold + (if Passed(th, DownTest) then 1 else 0) && th.ret == 1
       case MUnlock => taken == 0 && th.hold == th0.hold - if Passed(th, UpAdd) then 1 else 0
       case Down => th.hold == th0.hold && taken == if Passed(th, DownTest) then 1 else 0
       case TryDown =>
         && th.hold == th0.hold
         && if Point(th.pc) == TryDownTest then taken == 0
            else if Point(th.pc) == Idle then taken == (if could then 1 else 0) && th.ret == (if could then 0 else 1)
            else could && taken == if Passed(th, DownTest) then 1 else 0
       case Up => th.hold == th0.hold && taken == if Passed(th, UpAdd) then -1 else 0
       case GLock => th.hold == th0.hold && taken == 0
       case NoOp => th.hold == th0.hold && taken == 0
  }

  // Whether a thread has the loop of down, or the first step of up, behind it.
  ghost predicate Passed(th: Thread, at: At) {
    var now := Point(th.pc);
    if at == DownTest then now == AfterDown || now == SetOwner || now == Idle
    else now == UpCast || now == AfterUp || now == Idle
  }

  // What a trying call sees when it looks.
  ghost predicate Sees(s: State, i: int) {
    if s.kind == Mutex then Available(s, i) else s.value > 0
  }

  ghost predicate Looking(th: Thread) {
    th.pc == Run(TryTest) || th.pc == Run(TryDownTest)
  }

  lemma SofarStart(s: State, i: int, a: Action, could: bool)
    requires Inv(s) && Enabled(s, i, a) && a != Go && a != Spurious
    ensures i in Do(s, i, a).threads && Do(s, i, a).given == s.given
    ensures Sofar(s.threads[i], Do(s, i, a).threads[i], a, could, 0)
      && Point(Do(s, i, a).threads[i].pc) == Entry(Do(s, i, a).threads[i].op)
  {
  }

  // At the test of a trying call the mutex has no owner, or the caller is it, exactly if no
  // other thread has it.
  lemma OwnerSeen(s: State, i: int)
    requires Inv(s) && i in s.threads && s.threads[i].pc == Run(TryTest)
    ensures s.kind == Mutex && s.holder == i && (s.owner == NONE || s.owner == i <==> Available(s, i))
  {
    assert ThreadOk(s, i);
    forall j | j in s.threads ensures s.threads[j].hold > 0 <==> s.winner == j {
      assert ThreadOk(s, j);
    }
    forall j | j in s.threads ensures s.threads[j].hold >= 0 {
      assert ThreadOk(s, j);
    }
  }

  // What the code relies on of a thread that is in a call.
  ghost predicate InCall(s: State, i: int) {
    (i in s.threads && PcOk(s.threads[i]) && (MutexOp(s.threads[i].op) ==> s.kind == Mutex)
     && (s.threads[i].op == Down || s.threads[i].op == TryDown || s.threads[i].op == Up ==> s.kind.Sema?)) == true
  }

  ghost predicate Keeps(s: State, s': State, i: int, th0: Thread, a: Action, could: bool, taken: int) {
    (i in s'.threads && Sofar(th0, s'.threads[i], a, could, taken + s.given - s'.given)) == true
  }

  lemma SofarMove(s: State, i: int, th0: Thread, a: Action, could: bool, taken: int)
    requires InCall(s, i) && Enabled(s, i, Go) && Sofar(th0, s.threads[i], a, could, taken) && !s.threads[i].pc.Run?
    ensures Keeps(s, Do(s, i, Go), i, th0, a, could, taken)
  {
  }

  lemma SofarLook(s: State, i: int, th0: Thread, a: Action, could: bool, taken: int)
    requires InCall(s, i) && Enabled(s, i, Go) && Sofar(th0, s.threads[i], a, could, taken) && Looking(s.threads[i])
    requires s.threads[i].pc == Run(TryTest) ==> could == (s.owner == NONE || s.owner == i)
    requires s.threads[i].pc == Run(TryDownTest) ==> could == (s.value > 0)
    ensures Keeps(s, Do(s, i, Go), i, th0, a, could, taken)
  {
  }

  lemma SofarTake(s: State, i: int, th0: Thread, a: Action, could: bool, taken: int)
    requires InCall(s, i) && Enabled(s, i, Go) && Sofar(th0, s.threads[i], a, could, taken)
      && s.threads[i].pc.Run? && s.threads[i].pc.at in {Test, Take, AfterDown, SetOwner, DownTest}
    ensures Keeps(s, Do(s, i, Go), i, th0, a, could, taken)
  {
  }

  lemma SofarGive(s: State, i: int, th0: Thread, a: Action, could: bool, taken: int)
    requires InCall(s, i) && Enabled(s, i, Go) && Sofar(th0, s.threads[i], a, could, taken)
      && s.threads[i].pc.Run? && s.threads[i].pc.at in {CallUp, UpAdd, UpCast, AfterUp}
    ensures Keeps(s, Do(s, i, Go), i, th0, a, could, taken)
  {
  }

  lemma SofarSleep(s: State, i: int, th0: Thread, a: Action, could: bool, taken: int)
    requires InCall(s, i) && Enabled(s, i, Go) && Sofar(th0, s.threads[i], a, could, taken) && s.threads[i].pc.Run?
      && s.threads[i].pc.at in {DropTest, DropInc, PreSleep, Wait, PickTest, PostSleep, Woken}
    ensures Keeps(s, Do(s, i, Go), i, th0, a, could, taken)
  {
  }

  lemma SofarGo(s: State, i: int, th0: Thread, a: Action, could: bool, taken: int)
    requires Inv(s) && Enabled(s, i, Go) && Sofar(th0, s.threads[i], a, could, taken)
    requires Looking(s.threads[i]) ==> could == Sees(s, i)
    ensures Keeps(s, Do(s, i, Go), i, th0, a, could, taken)
  {
    assert ThreadOk(s, i) && InCall(s, i) && s.threads[i].pc != Run(Idle) && s.threads[i].pc != Run(Sleeping);
    assert s.threads[i].pc == Run(TryDownTest) ==> s.kind.Sema? by {
      assert s.threads[i].pc == Run(TryDownTest) ==> s.threads[i].op == TryDown;
    }
    if s.threads[i].pc == Run(TryTest) {
      OwnerSeen(s, i);
    }
    hide Inv, InCall, Enabled, Sofar, Keeps, Do, ThreadOk;
    if s.threads[i].pc.Run? {
      match s.threads[i].pc.at
      case TryTest | TryDownTest => SofarLook(s, i, th0, a, could, taken);
      case Test | Take | AfterDown | SetOwner | DownTest => SofarTake(s, i, th0, a, could, taken);
      case CallUp | UpAdd | UpCast | AfterUp => SofarGive(s, i, th0, a, could, taken);
      case Idle | Sleeping =>
      case _ => SofarSleep(s, i, th0, a, could, taken);
    } else {
      SofarMove(s, i, th0, a, could, taken);
    }
  }

  // Steps of other threads, and wakeups without a cause, change nothing of a call.
  lemma SofarOther(s: State, j: int, b: Action, i: int, th0: Thread, a: Action, could: bool, taken: int)
    requires Enabled(s, j, b) && (i != j || b == Spurious)
    requires i in s.threads && Sofar(th0, s.threads[i], a, could, taken)
    ensures var s' := Do(s, j, b);
      && i in s'.threads && Sofar(th0, s'.threads[i], a, could, taken)
      && (s'.threads[i].pc == s.threads[i].pc || (s.threads[i].pc == Run(Sleeping) && s'.threads[i].pc == Run(Woken)))
      && (i == j ==> s'.given == s.given)
  {
    hide Sofar;
    Untouched(s, j, b, i);
    if s.threads[i].pc == Run(Sleeping) {
      Rouse(th0, s.threads[i], a, could, taken);
    }
  }

  lemma Untouched(s: State, j: int, b: Action, i: int)
    requires Enabled(s, j, b) && (i != j || b == Spurious) && i in s.threads
    ensures var s' := Do(s, j, b);
      && i in s'.threads && (i == j ==> s'.given == s.given)
      && (s'.threads[i] == s.threads[i]
          || (s.threads[i].pc == Run(Sleeping) && s'.threads[i] == s.threads[i].(pc := Run(Woken))))
  {
  }

  lemma Rouse(th0: Thread, th: Thread, a: Action, could: bool, taken: int)
    requires Sofar(th0, th, a, could, taken) && th.pc == Run(Sleeping)
    ensures Sofar(th0, th.(pc := Run(Woken)), a, could, taken)
  {
  }


  lemma BeforeLook(s: State, i: int, th0: Thread, a: Action, could: bool, now: bool, taken: int)
    requires InCall(s, i) && Sofar(th0, s.threads[i], a, could, taken) && Looking(s.threads[i])
    ensures Sofar(th0, s.threads[i], a, now, taken)
  {
  }

  ghost predicate Trying(op: Op) {
    op == MTry || op == TryDown
  }

  // A trying call comes past its test by looking.
  lemma LooksFirst(s: State, i: int)
    requires InCall(s, i) && Enabled(s, i, Go) && Trying(s.threads[i].op)
    requires Point(s.threads[i].pc) == Entry(s.threads[i].op) && !Looking(s.threads[i])
    ensures var s' := Do(s, i, Go); i in s'.threads && Point(s'.threads[i].pc) == Point(s.threads[i].pc)
  {
  }

  // A trying call that has looked.
  ghost predicate Past(th: Thread) {
    Trying(th.op) && Point(th.pc) != Entry(th.op)
  }

  ghost predicate Looks(s: State, i: int, j: int, b: Action) {
    i == j && b == Go && i in s.threads && Looking(s.threads[i])
  }

  lemma Calling(s: State, i: int, a: Action)
    requires Inv(s) && Enabled(s, i, a) && s.threads[i].pc != Run(Idle)
    ensures InCall(s, i) && (a == Go || a == Spurious)
    ensures a == Spurious ==> s.threads[i].pc == Run(Sleeping)
  {
    assert ThreadOk(s, i);
  }

  lemma LookingAt(s: State, i: int)
    requires Inv(s) && i in s.threads && Looking(s.threads[i])
    ensures s.threads[i].pc == Run(Entry(s.threads[i].op)) && Trying(s.threads[i].op)
    ensures s.kind == Mutex <==> s.threads[i].op == MTry
  {
    assert ThreadOk(s, i);
  }

  lemma PastOther(th: Thread, th': Thread)
    requires th' == th || (th.pc == Run(Sleeping) && th' == th.(pc := Run(Woken)))
    ensures Past(th') ==> Past(th)
  {
  }

  // One step on the way.
  lemma SofarStep(s: State, j: int, b: Action, i: int, th0: Thread, a: Action, could: bool, taken: int)
    requires Inv(s) && Enabled(s, j, b) && i in s.threads && s.threads[i].pc != Run(Idle)
    requires Sofar(th0, s.threads[i], a, could, taken)
    ensures var s' := Do(s, j, b);
      && i in s'.threads && (Past(s'.threads[i]) ==> Past(s.threads[i]) || Looks(s, i, j, b))
      && Sofar(th0, s'.threads[i], a, if Looks(s, i, j, b) then Sees(s, i) else could,
               taken + if j == i then s.given - s'.given else 0)
  {
    hide Inv, InCall, Enabled, Sofar, Do, Sees, Looking, Trying;
    if i == j {
      Calling(s, i, b);
    }
    if i != j || b == Spurious {
      Untouched(s, j, b, i);
      SofarOther(s, j, b, i, th0, a, could, taken);
      PastOther(s.threads[i], Do(s, j, b).threads[i]);
    } else if Looking(s.threads[i]) {
      BeforeLook(s, i, th0, a, could, Sees(s, i), taken);
      SofarGo(s, i, th0, a, Sees(s, i), taken);
    } else {
      SofarGo(s, i, th0, a, could, taken);
      SofarOp(th0, s.threads[i], a, could, taken);
      SofarOp(th0, Do(s, i, b).threads[i], a, could, taken + s.given - Do(s, i, b).given);
      if Trying(s.threads[i].op) && Point(s.threads[i].pc) == Entry(s.threads[i].op) {
        LooksFirst(s, i);
      }
    }
  }

  lemma SofarOp(th0: Thread, th: Thread, a: Action, could: bool, taken: int)
    requires Sofar(th0, th, a, could, taken)
    ensures th.op == if a.Start? then a.op else NoOp
  {
  }

  lemma StepAt(run: seq<State>, steps: seq<Step>, k: nat)
    requires Schedule(run, steps) && 0 < k < |run|
    ensures |run| == |steps| + 1 && Inv(run[k - 1]) && Enabled(run[k - 1], steps[k - 1].who, steps[k - 1].what)
    ensures run[k] == Do(run[k - 1], steps[k - 1].who, steps[k - 1].what)
  {
    Scheduled(run, steps);
    RunKeeps(run, k - 1);
    assert run[k - 1 + 1] == Do(run[k - 1], steps[k - 1].who, steps[k - 1].what);
  }

  // A call on its way: a trying one has looked in step `t`.
  ghost predicate OnWay(run: seq<State>, steps: seq<Step>, i: int, from: nat, k: nat, t: nat) {
    && |run| == |steps| + 1 && from < k < |run| && t < |run| && i in run[from].threads && i in run[k].threads
    && Sofar(run[from].threads[i], run[k].threads[i], steps[from].what, Sees(run[t], i),
             Taken(run, steps, i, from, k))
    && (Past(run[k].threads[i]) ==> from < t < k && i in run[t].threads && Looking(run[t].threads[i]))
  }

  lemma FirstStep(run: seq<State>, steps: seq<Step>, i: int, from: nat)
    requires Schedule(run, steps) && from < |steps|
    requires steps[from].who == i && (steps[from].what.Start? || steps[from].what == LeaveOuter)
    ensures OnWay(run, steps, i, from, from + 1, 0)
  {
    StepAt(run, steps, from + 1);
    SofarStart(run[from], i, steps[from].what, Sees(run[0], i));
    assert Taken(run, steps, i, from, from) == 0;
    hide Schedule, Sofar, Do, Inv, Enabled, Sees, Looking;
  }

  lemma NextStep(run: seq<State>, steps: seq<Step>, i: int, from: nat, k: nat, t: nat)
    requires Schedule(run, steps) && OnWay(run, steps, i, from, k, t) && k < |steps|
    requires run[k].threads[i].pc != Run(Idle)
    ensures OnWay(run, steps, i, from, k + 1, if Looks(run[k], i, steps[k].who, steps[k].what) then k else t)
  {
    StepAt(run, steps, k + 1);
    hide Schedule, Sofar, Do, Inv, Enabled, Sees, Looking, Past;
    SofarStep(run[k], steps[k].who, steps[k].what, i, run[from].threads[i], steps[from].what, Sees(run[t], i),
        Taken(run, steps, i, from, k));
  }

  lemma {:induction false} CallSofar(run: seq<State>, steps: seq<Step>, i: int, from: nat, k: nat) returns (t: nat)
    requires Schedule(run, steps) && from < k < |run|
    requires steps[from].who == i && (steps[from].what.Start? || steps[from].what == LeaveOuter)
    requires forall m :: from < m < k ==> i in run[m].threads && run[m].threads[i].pc != Run(Idle)
    ensures OnWay(run, steps, i, from, k, t)
    decreases k
  {
    hide OnWay, Looks;
    if k - 1 == from {
      t := 0;
      FirstStep(run, steps, i, from);
    } else {
      t := CallSofar(run, steps, i, from, k - 1);
      NextStep(run, steps, i, from, k - 1, t);
      if Looks(run[k - 1], i, steps[k - 1].who, steps[k - 1].what) {
        t := k - 1;
      }
    }
  }

  // What calls have achieved when they return, in every run. mutex_lock has the mutex once
  // more and mutex_unlock once less; down has taken a permit and up has given one; the depth
  // of the caller's own locking changes by atomic_lock and atomic_unlock only.
  lemma CallDone(run: seq<State>, steps: seq<Step>, i: int, from: nat, to: nat)
    requires Call(run, steps, i, from, to) && !(steps[from].what.Start? && Trying(steps[from].what.op))
    ensures i in run[from].threads
    ensures var op := if steps[from].what.Start? then steps[from].what.op else NoOp;
      && run[to].threads[i].hold
         == run[from].threads[i].hold + (if op == MLock then 1 else if op == MUnlock then -1 else 0)
      && Taken(run, steps, i, from, to) == (if op == Down then 1 else if op == Up then -1 else 0)
      && run[to].threads[i].outer
         == run[from].threads[i].outer + (if op == GLock then 1 else if op == NoOp then -1 else 0)
  {
    StartsSomething(run, steps, from);
    hide Schedule, Taken;
    var t := CallSofar(run, steps, i, from, to);
  }

  lemma StartsSomething(run: seq<State>, steps: seq<Step>, from: nat)
    requires Schedule(run, steps) && from < |steps|
    ensures steps[from].what != Start(NoOp)
  {
    assert Enabled(run[from], steps[from].who, steps[from].what);
  }

  // mutex_trylock looks once, in step `t`, and gets the mutex exactly if no other thread has it
  // then. It tells its caller which, and otherwise leaves everything as it was.
  lemma TryLockDone(run: seq<State>, steps: seq<Step>, i: int, from: nat, to: nat) returns (t: nat)
    requires Call(run, steps, i, from, to) && steps[from].what == Start(MTry)
    ensures from < t < to && i in run[from].threads && i in run[t].threads && run[t].threads[i].pc == Run(TryTest)
    ensures (forall j :: j in run[t].threads && j != i ==> run[t].threads[j].hold == 0) ==>
        run[to].threads[i].ret == 1 && run[to].threads[i].hold == run[from].threads[i].hold + 1
    ensures (exists j :: j in run[t].threads && j != i && run[t].threads[j].hold > 0) ==>
        run[to].threads[i].ret == 0 && run[to].threads[i].hold == run[from].threads[i].hold
    ensures run[to].threads[i].outer == run[from].threads[i].outer && Taken(run, steps, i, from, to) == 0
  {
    t := Looked(run, steps, i, from, to);
    hide Schedule, Execution, Inv, Taken;
  }

  // down_trylock looks once, and takes a permit exactly if there is one then.
  lemma TryDownDone(run: seq<State>, steps: seq<Step>, i: int, from: nat, to: nat) returns (t: nat)
    requires Call(run, steps, i, from, to) && steps[from].what == Start(TryDown)
    ensures from < t < to && i in run[from].threads && i in run[t].threads && run[t].threads[i].pc == Run(TryDownTest)
    ensures run[t].value > 0 ==> run[to].threads[i].ret == 0 && Taken(run, steps, i, from, to) == 1
    ensures run[t].value <= 0 ==> run[to].threads[i].ret == 1 && Taken(run, steps, i, from, to) == 0
    ensures run[to].threads[i].outer == run[from].threads[i].outer
    ensures run[to].threads[i].hold == run[from].threads[i].hold
  {
    t := Looked(run, steps, i, from, to);
    hide Schedule, Execution, Inv, Taken;
  }

  lemma Looked(run: seq<State>, steps: seq<Step>, i: int, from: nat, to: nat) returns (t: nat)
    requires Call(run, steps, i, from, to)
    requires steps[from].what == Start(MTry) || steps[from].what == Start(TryDown)
    ensures from < t < to && OnWay(run, steps, i, from, to, t)
    ensures run[t].threads[i].pc == Run(Entry(steps[from].what.op))
    ensures run[t].kind == Mutex <==> steps[from].what.op == MTry
  {
    t := CallSofar(run, steps, i, from, to);
    Scheduled(run, steps);
    RunKeeps(run, t);
    LookingAt(run[t], i);
    var u := CallSofar(run, steps, i, from, t);
    hide Schedule, Execution, Inv, Taken;
  }

  // How far a thread still has to go: to the end of its call, or to its next sleep.
  function Stage(at: At): nat {
    match at
    case Woken => 13
    case PostSleep => 12
    case PickTest => 11
    case Test | TryTest | TryDownTest | CallUp => 10
    case DownTest | UpAdd => 9
    case DropTest | DropInc | UpCast => 8
    case PreSleep | AfterUp => 7
    case Wait => 6
    case Sleeping => 5
    case Take => 4
    case AfterDown => 3
    case SetOwner => 2
    case Idle => 0
  }

  // Rounds of a loop that are still to come at most.
  function Rounds(th: Thread): int {
    match Point(th.pc)
    case DropTest | DropInc => th.outer + Nest(th.op) - th.drops
    case PickTest => th.drops
    case _ => 0
  }

  function Phase(pc: Pc): nat {
    match pc
    case Acquire(_) => 4
    case Count(_) => 3
    case Uncount(_) => 4
    case Release(_) => 3
    case Run(at) => if at == DropTest then 5 else 2
  }

  ghost predicate Nearer(th: Thread, th': Thread) {
    || Stage(Point(th'.pc)) < Stage(Point(th.pc))
    || (Stage(Point(th'.pc)) == Stage(Point(th.pc)) && Rounds(th') < Rounds(th))
    || (Stage(Point(th'.pc)) == Stage(Point(th.pc)) && Rounds(th') == Rounds(th) && Phase(th'.pc) < Phase(th.pc))
  }

  ghost predicate Nears(s: State, s': State, i: int) {
    (i in s.threads && i in s'.threads && Nearer(s.threads[i], s'.threads[i])) == true
  }

  lemma NearsMove(s: State, i: int)
    requires InCall(s, i) && Enabled(s, i, Go) && !s.threads[i].pc.Run?
    ensures Nears(s, Do(s, i, Go), i)
  {
  }

  lemma NearsEarly(s: State, i: int)
    requires InCall(s, i) && Enabled(s, i, Go) && s.threads[i].pc.Run?
      && s.threads[i].pc.at in {Test, TryTest, TryDownTest, DownTest, Take, AfterDown, SetOwner}
    ensures Nears(s, Do(s, i, Go), i)
  {
  }

  lemma NearsUp(s: State, i: int)
    requires InCall(s, i) && Enabled(s, i, Go) && s.threads[i].pc.Run?
      && s.threads[i].pc.at in {CallUp, UpAdd, UpCast, AfterUp}
    ensures Nears(s, Do(s, i, Go), i)
  {
  }

  lemma NearsSleep(s: State, i: int)
    requires InCall(s, i) && Enabled(s, i, Go) && s.threads[i].pc.Run?
      && s.threads[i].pc.at in {DropTest, DropInc, PreSleep, Wait, Woken, PostSleep, PickTest}
    ensures Nears(s, Do(s, i, Go), i)
  {
  }

  lemma NearsGo(s: State, i: int)
    requires InCall(s, i) && Enabled(s, i, Go)
    ensures Nears(s, Do(s, i, Go), i)
  {
    assert s.threads[i].pc != Run(Idle) && s.threads[i].pc != Run(Sleeping);
    hide Enabled, Do, InCall, Nears;
    if s.threads[i].pc.Run? {
      match s.threads[i].pc.at
      case Test | TryTest | TryDownTest | DownTest | Take | AfterDown | SetOwner => NearsEarly(s, i);
      case CallUp | UpAdd | UpCast | AfterUp => NearsUp(s, i);
      case Idle | Sleeping =>
      case _ => NearsSleep(s, i);
    } else {
      NearsMove(s, i);
    }
  }

  // Nothing but sleep and each other's lock keeps threads from getting on: a thread in a call
  // that does not sleep can take a step if nobody else has the lock, and one that has the lock
  // never sleeps; and every step brings a thread nearer to the end of its call, or to its next
  // sleep, which is finitely many steps ahead.
  lemma Progress(run: seq<State>, k: nat, i: int)
    requires Execution(run) && k < |run| && i in run[k].threads
    ensures run[k].holder in {NONE, i} && run[k].threads[i].pc !in {Run(Idle), Run(Sleeping)} ==>
        Enabled(run[k], i, Go)
    ensures run[k].holder == i ==> run[k].threads[i].pc != Run(Sleeping)
    ensures run[k].holder != NONE ==> run[k].holder in run[k].threads
    ensures Enabled(run[k], i, Go) ==>
      i in Do(run[k], i, Go).threads && Nearer(run[k].threads[i], Do(run[k], i, Go).threads[i])
    ensures Rounds(run[k].threads[i]) >= 0
  {
    RunKeeps(run, k);
    ProgressAt(run[k], i);
    if Enabled(run[k], i, Go) {
      Calling(run[k], i, Go);
      NearsGo(run[k], i);
    }
    hide Execution, Inv, Enabled, Do, Rounds, Nearer;
  }

  lemma ProgressAt(s: State, i: int)
    requires Inv(s) && i in s.threads
    ensures s.holder in {NONE, i} && s.threads[i].pc !in {Run(Idle), Run(Sleeping)} ==> Enabled(s, i, Go)
    ensures s.holder == i ==> s.threads[i].pc != Run(Sleeping)
    ensures s.holder != NONE ==> s.holder in s.threads
    ensures Rounds(s.threads[i]) >= 0
  {
    assert ThreadOk(s, i);
  }
}
