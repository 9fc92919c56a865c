/**
 The end of a connection in vtuner/vtuner_server.c: a writer thread and a control thread
 share a context; the one that closes its socket second frees it.
 */
module Teardown {

  datatype Who = Writer | Control

  // Where a thread is: serving; waiting for the semaphore; about to close its socket, to mark
  // it closed, to look at the other one, to release the semaphore; about to close the device,
  // to free the context; or gone.
  datatype Pc = Serving | Waiting | Closing | Marking | Looking | Leaving | CloseDevice | Freeing | Gone

  // `sock` tells whether a thread's socket field still holds a descriptor, `last` what the
  // thread has found about the other's. The counters count calls of close and kfree.
  datatype Thread = Thread(pc: Pc, sock: bool, last: bool, closes: nat)

  datatype State = State(writer: Thread, control: Thread, sem: int, deviceCloses: nat, frees: nat)

  ghost predicate Init(s: State) {
    s == State(Thread(Serving, true, false, 0), Thread(Serving, true, false, 0), 1, 0, 0)
  }

  function Of(s: State, w: Who): Thread {
    if w == Writer then s.writer else s.control
  }

  function Peer(w: Who): Who {
    if w == Writer then Control else Writer
  }

  function Put(s: State, w: Who, th: Thread): State {
    if w == Writer then s.(writer := th) else s.(control := th)
  }

  // Whether the thread reads or writes the context in its next step.
  predicate Touches(pc: Pc) {
    pc != Gone
  }

  // The next step of a thread on its way out.
  function Do(s: State, w: Who): State {
    var th := Of(s, w);
    match th.pc
    case Serving => Put(s, w, th.(pc := Waiting))
    case Waiting => Put(s.(sem := s.sem - 1), w, th.(pc := Closing))
    case Closing => Put(s, w, th.(pc := Marking, closes := th.closes + 1))
    case Marking => Put(s, w, th.(pc := Looking, sock := false))
    case Looking => Put(s, w, th.(pc := Leaving, last := !Of(s, Peer(w)).sock))
    case Leaving => Put(s.(sem := s.sem + 1), w, th.(pc := if th.last then CloseDevice else Gone))
    case CloseDevice => Put(s.(deviceCloses := s.deviceCloses + 1), w, th.(pc := Freeing))
    case Freeing => Put(s.(frees := s.frees + 1), w, th.(pc := Gone))
    case Gone => s
  }

  // A thread may stay in its loop, which uses the context, or leave it for any reason.
  ghost predicate Step(s: State, s': State, w: Who) {
    var pc := Of(s, w).pc;
    || (pc == Serving && s' == s)
    || (pc != Gone && (pc == Waiting ==> s.sem > 0) && s' == Do(s, w))
  }

  ghost predicate Inside(pc: Pc) {
    pc == Closing || pc == Marking || pc == Looking || pc == Leaving
  }

  ghost predicate After(pc: Pc) {
    pc == CloseDevice || pc == Freeing || pc == Gone
  }

  // What holds of one thread beside the other.
  ghost predicate ThreadOk(th: Thread, other: Thread) {
    && (th.sock <==> th.pc == Serving || th.pc == Waiting || th.pc == Closing || th.pc == Marking)
    && th.closes == (if th.pc == Serving || th.pc == Waiting || th.pc == Closing then 0 else 1)
    && !(Inside(th.pc) && Inside(other.pc))
    && (th.last ==> After(other.pc) && !other.last && other.pc == Gone)
    && (th.pc == CloseDevice || th.pc == Freeing ==> th.last)
    && (After(th.pc) && After(other.pc) ==> th.last || other.last)
    && (th.pc == Leaving && other.pc == Gone ==> th.last || other.last)
    && (th.last ==> th.pc == Leaving || After(th.pc))
    && (th.pc == Leaving && !th.last ==> other.sock)
  }

  ghost function Ends(s: State, pc: Pc): nat {
    (if s.writer.last && s.writer.pc == pc then 1 else 0) + (if s.control.last && s.control.pc == pc then 1 else 0)
  }

  ghost predicate Inv(s: State) {
    && ThreadOk(s.writer, s.control) && ThreadOk(s.control, s.writer)
    && s.sem == (if Inside(s.writer.pc) || Inside(s.control.pc) then 0 else 1)
    && s.deviceCloses == Ends(s, Freeing) + Ends(s, Gone)
    && s.frees == Ends(s, Gone)
  }

  lemma WriterKeeps(s: State, s': State)
    requires Inv(s) && Step(s, s', Writer)
    ensures Inv(s')
  {
  }

  lemma ControlKeeps(s: State, s': State)
    requires Inv(s) && Step(s, s', Control)
    ensures Inv(s')
  {
  }

  // The steps of the two threads in any order.
  ghost predicate Execution(run: seq<State>) {
    && run != [] && Init(run[0])
    && forall k :: 0 <= k < |run| - 1 ==> Next(run[k], run[k + 1])
  }

  ghost predicate Next(s: State, s': State) {
    Step(s, s', Writer) || Step(s, s', Control)
  }

  lemma {:induction false} RunKeeps(run: seq<State>, k: nat)
    requires Execution(run) && k < |run|
    ensures Inv(run[k])
  {
    if k > 0 {
      RunKeeps(run, k - 1);
      assert Next(run[k - 1], run[k - 1 + 1]);
      if Step(run[k - 1], run[k], Writer) {
        WriterKeeps(run[k - 1], run[k]);
      } else {
        ControlKeeps(run[k - 1], run[k]);
      }
    }
  }

  // In every interleaving: the context is freed once at most, and after that neither thread
  // touches it; the device is closed before; each socket is closed once at most.
  lemma FreedOnce(run: seq<State>, k: nat, w: Who)
    requires Execution(run) && k < |run|
    ensures run[k].frees <= 1 && run[k].frees <= run[k].deviceCloses <= 1 && Of(run[k], w).closes <= 1
    ensures run[k].frees == 1 ==> !Touches(run[k].writer.pc) && !Touches(run[k].control.pc)
    ensures Touches(Of(run[k], w).pc) ==> run[k].frees == 0
  {
    RunKeeps(run, k);
  }

  // When both have gone, everything has been given back; until then some step can be taken.
  lemma AllGivenBack(run: seq<State>, k: nat)
    requires Execution(run) && k < |run|
    ensures run[k].writer.pc == Gone && run[k].control.pc == Gone ==>
      run[k].frees == 1 && run[k].deviceCloses == 1 && run[k].writer.closes == 1 && run[k].control.closes == 1
    ensures !(run[k].writer.pc == Gone && run[k].control.pc == Gone) ==> exists s' :: Next(run[k], s')
  {
    RunKeeps(run, k);
    var s := run[k];
    if !(s.writer.pc == Gone && s.control.pc == Gone) {
      CanStep(s);
    }
  }

  lemma CanStep(s: State)
    requires Inv(s) && !(s.writer.pc == Gone && s.control.pc == Gone)
    ensures exists s' :: Next(s, s')
  {
    if s.writer.pc != Gone && (s.writer.pc != Waiting || s.sem > 0) {
      assert Step(s, Do(s, Writer), Writer);
      assert Next(s, Do(s, Writer));
    } else {
      assert Step(s, Do(s, Control), Control);
      assert Next(s, Do(s, Control));
    }
  }
}
