/**
 The URB queue of an endpoint in kernel/linux_usb.c, served by two transfers of the USB
 library. Submissions and callbacks run under one lock, one after the other; a completion
 handler runs inside a callback and may submit and unlink URBs itself. The library is not
 part of the model: it calls back on an idle transfer to start it, and once for every
 transfer submitted.
 */
module Usb {

  const EINPROGRESS := 115
  const EPIPE := 32
  const ECONNRESET := 104
  const EFBIG := 27

  datatype Kind = Isoc | Bulk | Control

  // Why the library calls back.
  datatype Event = Start | Completed(moved: nat, shortFrame: bool) | Cancelled | TimedOut | Failed

  datatype Reply = Accepted | Refused

  // What a completion handler finds in its URB: the negative of its status, its length, and
  // how many bytes have been moved.
  datatype Report = Report(status: int, length: int, actual: int)

  // A call of a completion handler: the URB, what is in it, whether the transfers are to be
  // left alone if it is submitted again, and whether it counts as submitted.
  datatype Visit = Visit(urb: Urb, report: Report, noResubmit: bool, hcpriv: bool)

  class Urb {
    var queued: bool         // whether bsd_urb_list.tqe_prev is set
    var status: int          // the negative of what the code stores
    var hcpriv: bool
    var noResubmit: bool
    var reject: bool
    var complete: bool       // whether there is a completion handler
    var shortNotOk: bool
    var length: int
    var actualLength: int
  }

  class Transfer {
    var priv: Urb?
    var pending: bool        // with the library
    var busy: bool           // in its callback
  }

  ghost predicate Increasing(s: seq<nat>) {
    forall i, j :: 0 <= i < j < |s| ==> s[i] < s[j]
  }

  // The fate of the submissions accepted so far, by number: those in the queue, in order;
  // those the transfers have taken, in the order of taking; those unlinked from the queue.
  ghost predicate Ledger(n: nat, queue: seq<nat>, taken: seq<nat>, unlinked: set<nat>) {
    && Increasing(queue) && Increasing(taken)
    && (forall i, j :: 0 <= i < |taken| && 0 <= j < |queue| ==> taken[i] < queue[j])
    && (forall k: nat :: k < n <==> k in queue || k in taken || k in unlinked)
    && (forall k :: k in unlinked ==> k !in queue && k !in taken)
  }

  lemma LedgerAccept(n: nat, queue: seq<nat>, taken: seq<nat>, unlinked: set<nat>)
    requires Ledger(n, queue, taken, unlinked)
    ensures Ledger(n + 1, queue + [n], taken, unlinked)
  {
    assert forall i :: 0 <= i < |queue| ==> queue[i] in queue;
    assert forall i :: 0 <= i < |taken| ==> taken[i] in taken;
  }

  lemma LedgerTake(n: nat, queue: seq<nat>, taken: seq<nat>, unlinked: set<nat>)
    requires Ledger(n, queue, taken, unlinked) && queue != []
    ensures Ledger(n, queue[1..], taken + [queue[0]], unlinked)
  {
    assert forall k :: k in queue <==> k == queue[0] || k in queue[1..];
    assert forall j :: 0 < j < |queue| ==> queue[j] == queue[1..][j - 1];
  }

  // A sequence without its first element.
  function Rest<T>(s: seq<T>): (r: seq<T>)
    requires s != []
    ensures |r| == |s| - 1
  {
    s[1..]
  }

  // A sequence without its element at `i`.
  function Cut<T>(s: seq<T>, i: nat): (r: seq<T>)
    requires i < |s|
    ensures |r| == |s| - 1
  {
    s[..i] + s[i + 1..]
  }

  lemma LedgerUnlink(n: nat, queue: seq<nat>, taken: seq<nat>, unlinked: set<nat>, i: nat)
    requires Ledger(n, queue, taken, unlinked) && i < |queue|
    ensures Ledger(n, Cut(queue, i), taken, unlinked + {queue[i]})
  {
    var cut := Cut(queue, i);
    assert queue == queue[..i] + [queue[i]] + queue[i + 1..];
    assert forall k :: k in queue <==> k == queue[i] || k in queue[..i] || k in queue[i + 1..];
    assert forall k :: k in cut <==> k in queue[..i] || k in queue[i + 1..];
    assert forall j :: 0 <= j < |queue| && j != i ==> queue[j] != queue[i];
    assert queue[i] !in cut;
    assert forall j :: 0 <= j < |cut| ==> cut[j] == queue[if j < i then j else j + 1];
  }

  // First come, first served: of two submissions the later one is taken only after the
  // earlier one has been taken or unlinked.
  lemma InOrder(n: nat, queue: seq<nat>, taken: seq<nat>, unlinked: set<nat>, a: nat, b: nat)
    requires Ledger(n, queue, taken, unlinked) && a < b && b in taken
    ensures a in unlinked || exists i, j :: 0 <= i < j < |taken| && taken[i] == a && taken[j] == b
  {
    var j :| 0 <= j < |taken| && taken[j] == b;
    assert forall m :: 0 <= m < |queue| ==> taken[j] < queue[m];
    if a in taken {
      var i :| 0 <= i < |taken| && taken[i] == a;
      assert i < j;
    }
  }

  function Held(x: Urb?): multiset<Urb> {
    if x == null then multiset{} else multiset{x}
  }

  // Nothing is made up, and what is missing is known: what was accepted is finished, queued,
  // held by one of the transfers, or was overwritten in one.
  ghost predicate Balanced(accepted: seq<Urb>, finished: seq<Urb>, queue: seq<Urb>, lost: seq<Urb>, a: Urb?, b: Urb?) {
    multiset(accepted) == multiset(finished) + multiset(queue) + multiset(lost) + Held(a) + Held(b)
  }

  // Accepted submissions are completions, URBs in the queue, URBs that transfers have, and
  // those overwritten.
  lemma Conservation(accepted: seq<Urb>, finished: seq<Urb>, queue: seq<Urb>, lost: seq<Urb>, a: Urb?, b: Urb?)
    requires Balanced(accepted, finished, queue, lost, a, b)
    ensures |accepted| == |finished| + |queue| + |lost| + (if a == null then 0 else 1) + (if b == null then 0 else 1)
  {
    assert |multiset(accepted)| == |multiset(finished)| + |multiset(queue)| + |multiset(lost)| + |Held(a)| + |Held(b)|;
  }

  lemma BalanceAccept(accepted: seq<Urb>, finished: seq<Urb>, queue: seq<Urb>, lost: seq<Urb>, a: Urb?, b: Urb?, u: Urb)
    requires Balanced(accepted, finished, queue, lost, a, b)
    ensures Balanced(accepted + [u], finished, queue + [u], lost, a, b)
  {
  }

  // A transfer with its queue and what has been overwritten in it.
  datatype Line = Line(queue: seq<Urb>, priv: Urb?, lost: seq<Urb>)

  // Lines 1938-1946: the first URB of the queue takes the place of what the transfer had.
  function TakeStep(l: Line): Line
    requires l.queue != []
  {
    Line(Rest(l.queue), l.queue[0], if l.priv == null then l.lost else l.lost + [l.priv])
  }

  lemma BalanceTake(accepted: seq<Urb>, finished: seq<Urb>, queue: seq<Urb>, lost: seq<Urb>, x: Urb?, b: Urb?)
    requires queue != []
        && (Balanced(accepted, finished, queue, lost, x, b) || Balanced(accepted, finished, queue, lost, b, x))
    ensures var l := TakeStep(Line(queue, x, lost));
      && Balanced(accepted, finished, l.queue, l.lost, l.priv, b)
      && Balanced(accepted, finished, l.queue, l.lost, b, l.priv)
  {
    assert queue == [queue[0]] + queue[1..];
  }

  lemma BalanceUnlink(accepted: seq<Urb>, finished: seq<Urb>, queue: seq<Urb>, lost: seq<Urb>, a: Urb?, b: Urb?, i: nat)
    requires i < |queue| && Balanced(accepted, finished, queue, lost, a, b)
    ensures Balanced(accepted, finished + [queue[i]], Cut(queue, i), lost, a, b)
  {
    assert queue == queue[..i] + [queue[i]] + queue[i + 1..];
  }

  lemma BalanceFinish(accepted: seq<Urb>, finished: seq<Urb>, queue: seq<Urb>, lost: seq<Urb>, u: Urb, b: Urb?)
    requires Balanced(accepted, finished, queue, lost, u, b) || Balanced(accepted, finished, queue, lost, b, u)
    ensures Balanced(accepted, finished + [u], queue, lost, null, b)
      && Balanced(accepted, finished + [u], queue, lost, b, null)
  {
  }

  // The queue holds the submissions it is said to hold.
  ghost predicate Booked(accepted: seq<Urb>, queue: seq<Urb>, numbers: seq<nat>, taken: seq<nat>, unlinked: set<nat>) {
    && Ledger(|accepted|, numbers, taken, unlinked)
    && |numbers| == |queue| && forall i :: 0 <= i < |queue| ==>
        numbers[i] < |accepted| && queue[i] == accepted[numbers[i]]
  }

  lemma BookAccept(accepted: seq<Urb>, queue: seq<Urb>, numbers: seq<nat>, taken: seq<nat>, unlinked: set<nat>, u: Urb)
    requires Booked(accepted, queue, numbers, taken, unlinked)
    ensures Booked(accepted + [u], queue + [u], numbers + [|accepted|], taken, unlinked)
  {
    LedgerAccept(|accepted|, numbers, taken, unlinked);
  }

  lemma BookTake(accepted: seq<Urb>, queue: seq<Urb>, numbers: seq<nat>, taken: seq<nat>, unlinked: set<nat>)
    requires Booked(accepted, queue, numbers, taken, unlinked) && queue != []
    ensures numbers != [] && Booked(accepted, Rest(queue), Rest(numbers), taken + [numbers[0]], unlinked)
  {
    LedgerTake(|accepted|, numbers, taken, unlinked);
  }

  lemma BookUnlink(accepted: seq<Urb>, queue: seq<Urb>, numbers: seq<nat>, taken: seq<nat>, unlinked: set<nat>, i: nat)
    requires Booked(accepted, queue, numbers, taken, unlinked) && i < |queue|
    ensures |numbers| == |queue|
    ensures Booked(accepted, Cut(queue, i), Cut(numbers, i), taken, unlinked + {numbers[i]})
  {
    LedgerUnlink(|accepted|, numbers, taken, unlinked, i);
  }

  // A queue without its element `i`, which is there once.
  lemma Without(q: seq<Urb>, i: nat)
    requires i < |q| && forall j, k :: 0 <= j < k < |q| ==> q[j] != q[k]
    ensures var r := Cut(q, i);
      && (forall j, k :: 0 <= j < k < |r| ==> r[j] != r[k])
      && (forall u :: u in r <==> u in q && u != q[i]) && (forall k :: 0 <= k < |r| ==> r[k] in q)
  {
    var r := Cut(q, i);
    forall u ensures u in r <==> u in q && u != q[i] {
      if u in q && u != q[i] {
        var j :| 0 <= j < |q| && q[j] == u;
        assert r[if j < i then j else j - 1] == u;
      }
    }
  }

  lemma WithoutFirst(q: seq<Urb>)
    requires q != [] && forall j, k :: 0 <= j < k < |q| ==> q[j] != q[k]
    ensures var r := Rest(q);
      && (forall j, k :: 0 <= j < k < |r| ==> r[j] != r[k])
      && (forall u :: u in r <==> u in q && u != q[0]) && (forall k :: 0 <= k < |r| ==> r[k] in q)
  {
    assert Rest(q) == Cut(q, 0);
    Without(q, 0);
  }

  class Endpoint {
    const kind: Kind
    const maxLength: int
    const urbs: set<Urb>             // the URBs that drivers have for this endpoint
    const reentrant: bool            // whether the library starts a transfer inside its callback
    const disciplined: bool          // whether handlers submit no URB but their own
    const xfer0: Transfer
    const xfer1: Transfer
    var queue: seq<Urb>
    ghost var accepted: seq<Urb>     // all submissions, in order
    ghost var finished: seq<Urb>     // all completions, in order, and what each has been told
    ghost var reported: seq<Report>
    ghost var called: seq<Visit>     // all calls of completion handlers, in order
    ghost var starts: seq<Transfer>  // the transfers asked to start, in order
    ghost var restarts: seq<Transfer>  // those stopped and started again, to be cancelled
    ghost var numbers: seq<nat>      // the submissions in the queue, by number
    ghost var taken: seq<nat>
    ghost var unlinked: set<nat>
    ghost var lost: seq<Urb>         // URBs overwritten in a transfer
    ghost var nested: nat            // how often a START has come inside a transfer's own callback

    // An URB is in one place: it is marked as queued while in the queue, a transfer has at
    // most one, and no two have the same.
    ghost predicate Places()
      reads this`queue, xfer0`priv, xfer0`pending, xfer1`priv, xfer1`pending, urbs`queued
    {
      && xfer0 != xfer1
      && (forall u {:trigger u.queued} :: u in urbs ==> (u.queued <==> u in queue))
      && (forall i :: 0 <= i < |queue| ==> queue[i] in urbs)
      && (forall i, j :: 0 <= i < j < |queue| ==> queue[i] != queue[j])
      && (xfer0.priv != null ==> xfer0.priv in urbs && xfer0.priv != xfer1.priv && !xfer0.priv.queued)
      && (xfer1.priv != null ==> xfer1.priv in urbs && !xfer1.priv.queued)
      && (xfer0.priv != null <==> xfer0.pending) && (xfer1.priv != null <==> xfer1.pending)
    }

    // The records. No handler is told that its URB is still in progress, and only URBs that a
    // transfer cannot carry are given back as too long.
    ghost predicate Records()
      reads this`queue, this`accepted, this`finished, this`reported, this`numbers, this`taken, this`unlinked,
        this`lost, this`nested, xfer0`priv, xfer1`priv
    {
      && Balanced(accepted, finished, queue, lost, xfer0.priv, xfer1.priv)
      && (!reentrant || disciplined ==> nested == 0) && (nested == 0 ==> lost == [])
      && Booked(accepted, queue, numbers, taken, unlinked)
      && |reported| == |finished|
      && forall r :: r in reported ==> r.status != EINPROGRESS && (r.status == EFBIG ==> TooLong(r.length))
    }

    ghost predicate TooLong(length: int) {
      || (kind == Bulk && length > maxLength)
      || (kind == Control && (maxLength < 8 || length > maxLength - 8))
    }

    ghost predicate Valid()
      reads this`queue, this`accepted, this`finished, this`reported, this`numbers, this`taken, this`unlinked,
        this`lost, this`nested, xfer0`priv, xfer0`pending, xfer1`priv, xfer1`pending, urbs`queued
    {
      Places() && Records()
    }

    ghost predicate Mine(x: Transfer) {
      x == xfer0 || x == xfer1
    }

    constructor (kind: Kind, maxLength: int, urbs: set<Urb>, reentrant: bool, disciplined: bool)
      requires forall u :: u in urbs ==> !u.queued
      ensures Valid() && this.kind == kind && this.maxLength == maxLength && this.urbs == urbs
      ensures this.reentrant == reentrant && this.disciplined == disciplined
      ensures queue == [] && accepted == [] && finished == [] && lost == [] && nested == 0
      ensures fresh(xfer0) && fresh(xfer1) && !xfer0.busy && !xfer1.busy && xfer0.priv == null && xfer1.priv == null
    {
      this.kind, this.maxLength, this.urbs := kind, maxLength, urbs;
      this.reentrant, this.disciplined := reentrant, disciplined;
      xfer0 := new Transfer;
      xfer1 := new Transfer;
      queue, accepted, finished, reported, called, starts, restarts := [], [], [], [], [], [], [];
      numbers, taken, unlinked, lost, nested := [], [], {}, [], 0;
      new;
      xfer0.priv, xfer0.pending, xfer0.busy := null, false, false;
      xfer1.priv, xfer1.pending, xfer1.busy := null, false, false;
    }

    function Told(u: Urb): Report
      reads u
    {
      Report(u.status, u.length, u.actualLength)
    }

    // Line 664.
    method Enqueue(u: Urb)
      requires Valid() && u in urbs && u != xfer0.priv && u != xfer1.priv && !u.queued
      modifies this`queue, this`accepted, this`numbers, u`queued
      ensures Valid() && accepted == old(accepted) + [u] && queue == old(queue) + [u] && u.queued
    {
      hide Balanced, Booked;
      BalanceAccept(accepted, finished, queue, lost, xfer0.priv, xfer1.priv, u);
      BookAccept(accepted, queue, numbers, taken, unlinked, u);
      numbers := numbers + [|accepted|];
      accepted := accepted + [u];
      queue := queue + [u];
      u.queued := true;
    }

    // Calls from within a callback leave a transfer that is in its own alone, unless a START
    // reaches it there; and what it has by then it keeps.
    twostate predicate Still(y: Transfer)
      reads this, y
    {
      && y.busy == old(y.busy)
      && (y.busy && (nested == old(nested) || old(y.pending)) ==> y.priv == old(y.priv) && y.pending == old(y.pending))
    }

    function Other(x: Transfer): Transfer {
      if x == xfer0 then xfer1 else xfer0
    }

    // What a transfer has come to have, it can carry.
    twostate predicate Carries(y: Transfer)
      reads y`priv, urbs`length
    {
      y.priv in urbs && !(y.priv == old(y.priv) && y.priv.length == old(y.priv.length)) ==> !TooLong(y.priv.length)
    }

    // The queue has become no longer than the calls made allow, and no record is gone.
    twostate predicate Onward(fuel: nat, left: nat)
      reads this, xfer0`priv, xfer1`priv, urbs`length
    {
      && left <= fuel && 2 * left + |queue| <= 2 * fuel + |old(queue)| && Records0()
    }

    twostate predicate Records0()
      reads this, xfer0`priv, xfer1`priv, urbs`length
    {
      && Carries(xfer0) && Carries(xfer1)
      && old(finished) <= finished && old(reported) <= reported && old(accepted) <= accepted && old(taken) <= taken
      && old(lost) <= lost && old(nested) <= nested && old(called) <= called && old(starts) <= starts
      && old(restarts) <= restarts
    }

    // Without a START inside a callback nothing is overwritten.
    twostate predicate NoLoss()
      reads this
    {
      nested == old(nested) ==> lost == old(lost)
    }

    // Lines 625-684. A driver does not submit an URB that a transfer still has. The transfers
    // are asked to start, unless the URB is submitted from its own handler.
    method Submit(u: Urb, fuel: nat) returns (r: Reply, left: nat)
      requires Valid() && u in urbs && u != xfer0.priv && u != xfer1.priv
      requires disciplined && !u.noResubmit ==> !xfer0.busy && !xfer1.busy
      modifies this, urbs, xfer0, xfer1
      ensures Valid() && Still(xfer0) && Still(xfer1) && NoLoss() && Records0()
      ensures left <= fuel && 2 * left + |queue| <= 2 * fuel + |old(queue)| + 1
      ensures r == Refused ==> accepted == old(accepted) && queue == old(queue)
      ensures r == Accepted ==> if old(u.queued) then old(accepted) <= accepted else old(accepted) + [u] <= accepted
      ensures r == Accepted && old(u.noResubmit) ==> queue == (if old(u.queued) then old(queue) else old(queue) + [u])
      ensures r == Accepted && old(u.noResubmit) ==>
        u.hcpriv && u.status == if old(u.queued) then old(u.status) else EINPROGRESS
      ensures r == Accepted && !old(u.noResubmit) ==>
        exists s :: old(starts) + [xfer0] <= s && s + [xfer1] <= starts
      ensures r == Refused || old(u.noResubmit) ==> starts == old(starts)
      ensures old(u.reject) ==> r == Refused
      decreases fuel, 2
    {
      hide Places, Records;
      left := fuel;
      if u.reject {
        return Refused, left;
      }
      var found: bool := *;   // the endpoint, and its set-up
      if !found {
        return Refused, left;
      }
      u.hcpriv := true;
      if !u.queued {
        Enqueue(u);
        u.status := EINPROGRESS;
      }
      r := Accepted;
      if !u.noResubmit {
        left := StartBoth(left);
      }
    }

    // Lines 673-674.
    method StartBoth(fuel: nat) returns (left: nat)
      requires Valid() && (disciplined ==> AtWork(xfer0) && AtWork(xfer1))
      modifies this, urbs, xfer0, xfer1
      ensures Valid() && Still(xfer0) && Still(xfer1) && NoLoss() && Onward(fuel, left)
      ensures exists s :: old(starts) + [xfer0] <= s && s + [xfer1] <= starts
      decreases fuel, 1, 1
    {
      hide Places, Records;
      left := TrStart(xfer0, fuel);
      left := TrStart(xfer1, left);
    }

    // A transfer in its callback has taken an URB already.
    ghost predicate AtWork(y: Transfer)
      reads y
    {
      y.busy ==> y.pending
    }

    // A request to start a transfer. The library calls back at once, later, or not at all if
    // the transfer has something to do.
    method TrStart(x: Transfer, fuel: nat) returns (left: nat)
      requires Valid() && Mine(x) && (disciplined ==> AtWork(x) && AtWork(Other(x)))
      modifies this, urbs, xfer0, xfer1
      ensures Valid() && Still(xfer0) && Still(xfer1) && NoLoss() && Onward(fuel, left)
      ensures old(starts) + [x] <= starts
      decreases fuel, 1, 0
    {
      hide Places, Records;
      left := fuel;
      starts := starts + [x];
      var now: bool := *;
      if now && fuel > 0 && !x.pending && (reentrant || !x.busy) {
        if x.busy {
          Nest();
        }
        left := Callback(x, Start, fuel - 1);
      }
    }

    ghost method Nest()
      requires Valid() && reentrant && !disciplined
      modifies this`nested
      ensures Valid() && nested == old(nested) + 1
    {
      nested := nested + 1;
    }

    lemma TransferHas(x: Transfer)
      requires Valid() && Mine(x)
      ensures xfer0 != xfer1 && (x.pending <==> x.priv != null)
      ensures x.priv != null ==> x.priv in urbs && !x.priv.queued && x.priv != Other(x).priv
      ensures nested == 0 ==> lost == []
    {
    }

    lemma Unqueued(u: Urb)
      requires Valid() && u in urbs && u !in queue
      ensures !u.queued
    {
    }

    lemma Head()
      requires Valid() && queue != []
      ensures queue[0] in urbs && queue[0].queued
    {
      assert queue[0] in queue;
    }

    // Lines 751-754: the URB leaves the queue.
    method Dequeue(u: Urb)
      requires Valid() && u in urbs && u.queued
      modifies this`queue, this`numbers, this`unlinked, this`finished, this`reported, u`queued, u`status, u`actualLength
      ensures Valid() && !u.queued && accepted == old(accepted) && taken == old(taken) && |queue| == |old(queue)| - 1
      ensures Told(u) == Report(ECONNRESET, u.length, 0)
      ensures finished == old(finished) + [u] && reported == old(reported) + [Told(u)]
      ensures exists i :: 0 <= i < |old(queue)| && old(queue)[i] == u && queue == Cut(old(queue), i)
    {
      hide Records, Cut;
      var i :| 0 <= i < |queue| && queue[i] == u;
      Without(queue, i);
      u.status := ECONNRESET;
      u.actualLength := 0;
      CutOut(i);
      u.queued := false;
    }

    method CutOut(i: nat)
      requires Records() && i < |queue| && queue[i].status == ECONNRESET
      modifies this`queue, this`numbers, this`unlinked, this`finished, this`reported
      ensures Records() && queue == Cut(old(queue), i) && finished == old(finished) + [old(queue)[i]]
        && reported == old(reported) + [Told(old(queue)[i])]
    {
      hide Balanced, Booked, Cut, TooLong;
      BalanceUnlink(accepted, finished, queue, lost, xfer0.priv, xfer1.priv, i);
      BookUnlink(accepted, queue, numbers, taken, unlinked, i);
      unlinked := unlinked + {numbers[i]};
      numbers := Cut(numbers, i);
      finished := finished + [queue[i]];
      reported := reported + [Told(queue[i])];
      queue := Cut(queue, i);
    }

    // Lines 736-776, for an URB to be given up without waiting. `fuel` bounds the calls that
    // drivers go on to make; what is left of it is returned.
    method Unlink(u: Urb, fuel: nat) returns (left: nat)
      requires Valid() && u in urbs
      modifies this, urbs, xfer0, xfer1
      ensures Valid() && Still(xfer0) && Still(xfer1) && NoLoss() && Onward(fuel, left)
      ensures old(u.queued) ==>
        old(finished) + [u] <= finished && old(reported) + [Report(ECONNRESET, old(u.length), 0)] <= reported
      ensures old(u.queued) && old(u.complete) ==>
        old(called) + [Visit(u, Report(ECONNRESET, old(u.length), 0), old(u.noResubmit), false)] <= called
      ensures !old(u.queued) ==>
          finished == old(finished) && called == old(called)
          && restarts == old(restarts)
               + (if xfer0.priv == u then [xfer0] else []) + if xfer1.priv == u then [xfer1] else []
      decreases fuel, 3
    {
      hide Places, Records;
      left := fuel;
      if u.queued {
        Dequeue(u);
        left := Handler(u, fuel);
      } else {
        // stop and start the transfer that has it, which will cancel it
        if xfer0.priv == u {
          restarts := restarts + [xfer0];
        }
        if xfer1.priv == u {
          restarts := restarts + [xfer1];
        }
      }
    }

    // Lines 760-763 and 1737-1740: the completion handler runs.
    method Handler(u: Urb, fuel: nat) returns (left: nat)
      requires Valid() && u in urbs
      modifies this, urbs, xfer0, xfer1
      ensures Valid() && Still(xfer0) && Still(xfer1) && NoLoss() && Onward(fuel, left)
      ensures old(u.complete) ==> old(called) + [old(Visit(u, Told(u), u.noResubmit, false))] <= called
      decreases fuel, 2
    {
      hide Places, Records;
      left := fuel;
      if u.complete {
        u.hcpriv := false;
        called := called + [Visit(u, Told(u), u.noResubmit, u.hcpriv)];
        left := Driver(fuel);
      }
    }

    // What a driver does from a handler: it submits and unlinks URBs as it likes, and gives
    // other lengths to those it has.
    method Driver(fuel: nat) returns (left: nat)
      requires Valid()
      modifies this, urbs, xfer0, xfer1
      ensures Valid() && Still(xfer0) && Still(xfer1) && NoLoss() && Onward(fuel, left)
      decreases fuel, 1
    {
      hide Places, Records;
      left := fuel;
      while left > 0 && urbs != {}
        invariant Valid() && Still(xfer0) && Still(xfer1) && NoLoss() && Onward(fuel, left)
        decreases left
      {
        left := Act(left);
        var more: bool := *;
        if !more {
          break;
        }
      }
    }

    method Act(fuel: nat) returns (left: nat)
      requires Valid() && fuel > 0 && urbs != {}
      modifies this, urbs, xfer0, xfer1
      ensures Valid() && Still(xfer0) && Still(xfer1) && NoLoss() && left < fuel && Onward(fuel, left)
      decreases fuel, 0
    {
      hide Places, Records;
      left := fuel - 1;
      var u :| u in urbs;
      if !u.queued && u != xfer0.priv && u != xfer1.priv {
        u.length := *;
      }
      var unlink: bool := *;
      if unlink {
        left := Unlink(u, left);
      } else if u != xfer0.priv && u != xfer1.priv && (u.noResubmit || !disciplined || (!xfer0.busy && !xfer1.busy)) {
        var r;
        r, left := Submit(u, left);
      }
    }

    // Lines 1734-1740: the transfer gives its URB back. When the handler has returned, the
    // transfer has nothing, unless a START has reached it meanwhile.
    method Complete(x: Transfer, status: int, fuel: nat) returns (left: nat)
      requires Valid() && Mine(x) && x.busy && x.pending && status != EINPROGRESS
      requires status == EFBIG && x.priv != null ==> TooLong(x.priv.length)
      modifies this, urbs, xfer0, xfer1
      ensures Valid() && x.busy && Still(Other(x)) && NoLoss() && Onward(fuel, left)
      ensures nested == old(nested) ==> !x.pending
      ensures x.priv != null ==> !TooLong(x.priv.length)
      ensures old(x.priv) != null && old(finished) + [old(x.priv)] <= finished
      ensures var told := old(Report(status, x.priv.length, x.priv.actualLength));
        && old(reported) + [told] <= reported
        && (old(x.priv.complete) ==> old(called) + [Visit(old(x.priv), told, true, false)] <= called)
      ensures !old(x.priv).noResubmit
      decreases fuel, 3
    {
      hide Places, Records;
      TransferHas(x);
      var u: Urb := x.priv;
      u.status := status;
      GiveBack(x);
      u.noResubmit := true;
      left := Handler(u, fuel);
      TransferHas(x);
      u.noResubmit := false;
    }

    method GiveBack(x: Transfer)
      requires Valid() && Mine(x) && x.pending && x.priv != null && x.priv.status != EINPROGRESS
      requires x.priv.status == EFBIG ==> TooLong(x.priv.length)
      modifies this`finished, this`reported, x`priv, x`pending
      ensures Valid() && x.priv == null && !x.pending && queue == old(queue)
      ensures finished == old(finished) + [old(x.priv)] && reported == old(reported) + [old(Told(x.priv))]
    {
      hide Balanced, Booked;
      BalanceFinish(accepted, finished, queue, lost, x.priv, if x == xfer0 then xfer1.priv else xfer0.priv);
      finished := finished + [x.priv];
      reported := reported + [Told(x.priv)];
      x.priv := null;
      x.pending := false;
    }

    // Lines 1938-1946: the transfer takes the first URB of the queue, whatever it has.
    method Take(x: Transfer)
      requires Valid() && Mine(x) && queue != [] && (x.pending ==> nested > 0)
      modifies this`queue, this`numbers, this`taken, this`lost, x`priv, x`pending, urbs`queued
      ensures Valid() && x.pending && Line(queue, x.priv, lost) == TakeStep(old(Line(queue, x.priv, lost)))
      ensures numbers == Rest(old(numbers)) && taken == old(taken) + [old(numbers)[0]]
    {
      hide Balanced, Booked, Rest;
      WithoutFirst(queue);
      BalanceTake(accepted, finished, queue, lost, x.priv, if x == xfer0 then xfer1.priv else xfer0.priv);
      BookTake(accepted, queue, numbers, taken, unlinked);
      var u := queue[0];
      taken := taken + [numbers[0]];
      numbers := Rest(numbers);
      queue := Rest(queue);
      u.queued := false;
      if x.priv != null {
        lost := lost + [x.priv];
      }
      x.priv := u;
      x.pending := true;
    }

    // Lines 1752-1890 and 1902-2118, the three callbacks: a transfer gives the URB it has
    // back and takes the next one it can carry, unless it has been cancelled.
    method Callback(x: Transfer, event: Event, fuel: nat) returns (left: nat)
      requires Valid() && Mine(x) && (if event == Start then !x.pending else x.pending && !x.busy)
      requires (x.busy ==> nested > 0) && (disciplined ==> AtWork(Other(x)))
      modifies this, urbs, xfer0, xfer1
      ensures Valid() && x.busy == old(x.busy) && Still(Other(x)) && NoLoss() && Onward(fuel, left)
      ensures event != Start ==> old(x.priv) != null && old(finished) + [old(x.priv)] <= finished
      ensures event != Start ==>
        exists told ::
            old(reported) + [told] <= reported && Tells(event, told, old(x.priv.length), old(x.priv.shortNotOk))
      ensures x.priv != null && kind == Bulk ==> x.priv.length <= maxLength
      ensures x.priv != null && kind == Control ==> 8 <= maxLength && x.priv.length <= maxLength - 8
      ensures event == Cancelled && nested == old(nested) ==> !x.pending
      ensures event != Cancelled ==> x.pending || queue == []
      decreases fuel, 8
    {
      hide Places, Records, Tells;
      TransferHas(x);
      var was := x.busy;
      x.busy := true;
      if event == Start {
        left := Setup(x, fuel);
      } else {
        left := Finish(x, event, fuel);
      }
      x.busy := was;
    }

    // What the handler of an URB finds that has this length and may allow short transfers: the
    // bytes moved, the 8 bytes of a setup packet not among them, and an error exactly if that
    // is too few for it (lines 1769-1801, 1913-1928 and 2026-2047, 1862-1871, 1984-1991 and 2098-2105).
    ghost predicate Tells(event: Event, told: Report, length: int, shortNotOk: bool) {
      && told.length == length
      && match event
         case Start => false
         case Completed(moved, shortFrame) =>
           && (kind != Control ==> told.actual == moved)
           && (kind == Control ==> told.actual == if moved > 8 then moved - 8 else 0)
           && (told.status == EPIPE || told.status == 0)
           && (told.status == EPIPE <==> shortNotOk && if kind == Isoc then shortFrame else told.actual < length)
         case Cancelled => told.actual == 0 && told.status == ECONNRESET
         case TimedOut => told.actual == 0 && told.status == if kind == Isoc then 0 else EPIPE
         case Failed => told.actual == 0 && told.status == EPIPE
    }

    // Lines 1763-1801 and 1861-1871, 1911-1928 and 1983-1991, 2024-2047 and 2097-2105.
    method Outcome(u: Urb, event: Event) returns (status: int)
      requires event != Start
      modifies u`actualLength
      ensures Tells(event, Report(status, u.length, u.actualLength), u.length, u.shortNotOk)
      ensures status != EINPROGRESS && status != EFBIG
    {
      if event.Completed? {
        u.actualLength := event.moved;
        if kind == Control {
          // the setup packet does not count
          u.actualLength := if u.actualLength >= 8 then u.actualLength - 8 else 0;
        }
        var isShort := if kind == Isoc then event.shortFrame else u.actualLength < u.length;
        return if isShort && u.shortNotOk then EPIPE else 0;
      }
      u.actualLength := 0;
      if event == Cancelled {
        return ECONNRESET;
      } else if event == TimedOut && kind == Isoc {
        return 0;
      }
      return EPIPE;
    }

    // The URB of a transfer that has come to an end, and, unless that was cancelled, the next.
    method Finish(x: Transfer, event: Event, fuel: nat) returns (left: nat)
      requires Valid() && Mine(x) && x.busy && x.pending && event != Start && (disciplined ==> AtWork(Other(x)))
      modifies this, urbs, xfer0, xfer1
      ensures Valid() && x.busy && Still(Other(x)) && NoLoss() && Onward(fuel, left)
      ensures x.priv != null ==> !TooLong(x.priv.length)
      ensures old(x.priv) != null && old(finished) + [old(x.priv)] <= finished
      ensures exists told ::
        old(reported) + [told] <= reported && Tells(event, told, old(x.priv.length), old(x.priv.shortNotOk))
      ensures event == Cancelled && nested == old(nested) ==> !x.pending
      ensures event != Cancelled ==> x.pending || queue == []
      decreases fuel, 7
    {
      hide Places, Records, Tells;
      TransferHas(x);
      var status := Outcome(x.priv, event);
      left := Complete(x, status, fuel);
      if event != Cancelled {
        left := Setup(x, left);
        TransferHas(x);
      }
    }

    // Lines 1810-1834, 1936-1957 and 2055-2077: take an URB; one too long for the transfer is completed at once. What
    // the transfer has already when it comes here is overwritten exactly if there is another.
    method Setup(x: Transfer, fuel: nat) returns (left: nat)
      requires Valid() && Mine(x) && x.busy && (x.pending ==> nested > 0) && (disciplined ==> AtWork(Other(x)))
      requires x.priv != null ==> !TooLong(x.priv.length)
      modifies this, urbs, xfer0, xfer1
      ensures Valid() && x.busy && Still(Other(x)) && Onward(fuel, left)
      ensures !old(x.pending) ==> NoLoss()
      ensures old(x.pending) && old(queue) == [] ==> lost == old(lost)
      ensures old(x.pending) && old(queue) != [] ==> old(lost) + [old(x.priv)] <= lost
      ensures x.pending || queue == []
      ensures forall r :: r in reported && r.status == EFBIG ==>
        (kind == Bulk && r.length > maxLength) || (kind == Control && (maxLength < 8 || r.length > maxLength - 8))
      ensures x.priv != null && kind == Bulk ==> x.priv.length <= maxLength
      ensures x.priv != null && kind == Control ==> 8 <= maxLength && x.priv.length <= maxLength - 8
      decreases fuel, 6
    {
      hide Places, Records;
      TransferHas(x);
      left := fuel;
      ghost var first := true;
      var more := queue != [];
      while more
        invariant Valid() && x.busy && Still(Other(x)) && Onward(fuel, left)
        invariant (more ==> queue != [] && (x.pending ==> nested > 0)) && (!more ==> x.pending || queue == [])
        invariant first ==> Line(queue, x.priv, lost) == old(Line(queue, x.priv, lost)) && nested == old(nested)
        invariant first ==> x.pending == old(x.pending) && (more <==> queue != [])
        invariant old(queue) == [] ==> first
        invariant !old(x.pending) ==> NoLoss() && (more && nested == old(nested) ==> !x.pending)
        invariant x.priv != null ==> !TooLong(x.priv.length)
        invariant !first && old(x.pending) ==> old(lost) + [old(x.priv)] <= lost
        decreases more, 2 * left + |queue|
      {
        left, more := SetupOne(x, left);
        more := more && queue != [];
        first := false;
      }
      TransferHas(x);
      OnlyTooLong();
    }

    lemma OnlyTooLong()
      requires Valid()
      ensures forall r :: r in reported && r.status == EFBIG ==> TooLong(r.length)
    {
    }

    // One round: whether the transfer has to look for another URB.
    method SetupOne(x: Transfer, fuel: nat) returns (left: nat, more: bool)
      requires Valid() && Mine(x) && x.busy && (x.pending ==> nested > 0) && (disciplined ==> AtWork(Other(x)))
        && queue != []
      modifies this, urbs, xfer0, xfer1
      ensures Valid() && x.busy && Still(Other(x)) && left <= fuel && 2 * left + |queue| < 2 * fuel + |old(queue)|
        && Records0()
      ensures more <==> TooLong(old(queue[0].length))
      ensures !more ==> old(starts) + [Other(x)] <= starts
      ensures more ==>
        && old(finished) + [old(queue[0])] <= finished
        && old(reported) + [old(Report(EFBIG, queue[0].length, queue[0].actualLength))] <= reported
      ensures x.priv != null ==> !TooLong(x.priv.length)
      ensures old(x.pending) ==> old(lost) + [old(x.priv)] <= lost
      ensures !old(x.pending) ==> NoLoss() && (more && nested == old(nested) ==> !x.pending)
      ensures (!more ==> x.pending) && (x.pending && more ==> nested > 0)
      decreases fuel, 5
    {
      hide Places, Records, TooLong;
      Head();
      TransferHas(x);
      Take(x);
      left, more := Launch(x, fuel);
    }

    // The URB just taken is given back if it is too long. Otherwise it goes to the device, and
    // the other transfer is asked to start.
    method Launch(x: Transfer, fuel: nat) returns (left: nat, more: bool)
      requires Valid() && Mine(x) && x.busy && x.pending && (disciplined ==> AtWork(Other(x)))
      modifies this, urbs, xfer0, xfer1
      ensures Valid() && x.busy && Still(Other(x)) && Carries(Other(x)) && NoLoss() && Onward(fuel, left)
      ensures old(x.priv) != null && (more <==> TooLong(old(x.priv.length)))
      ensures more ==>
        && old(finished) + [old(x.priv)] <= finished
        && old(reported) + [old(Report(EFBIG, x.priv.length, x.priv.actualLength))] <= reported
      ensures x.priv != null ==> !TooLong(x.priv.length)
      ensures if more then nested == old(nested) ==> !x.pending else x.pending
      ensures !more ==> old(starts) + [Other(x)] <= starts
      decreases fuel, 4
    {
      hide Places, Records;
      TransferHas(x);
      match kind {
        case Isoc => more := false;
        case Bulk => more := x.priv.length > maxLength;
        case Control => more := maxLength < 8 || x.priv.length > maxLength - 8;
      }
      if more {
        left := Complete(x, EFBIG, fuel);
      } else {
        left := TrStart(Other(x), fuel);
      }
      TransferHas(x);
    }

    // Any sequence of submissions, unlinkings and callbacks, each in the lock.
    method Serve(rounds: nat, fuel: nat)
      requires Valid() && !xfer0.busy && !xfer1.busy
      modifies this, urbs, xfer0, xfer1
      ensures Valid() && !xfer0.busy && !xfer1.busy && Records0() && NoLoss()
    {
      hide Places, Records;
      for i := 0 to rounds
        invariant Valid() && !xfer0.busy && !xfer1.busy && Records0() && NoLoss()
      {
        if urbs != {} {
          var left := Act(fuel + 1);
        }
        var x := xfer0;
        var other: bool := *;
        if other {
          x := xfer1;
        }
        var event: Event := *;
        if if event == Start then !x.pending else x.pending {
          var left := Callback(x, event, fuel);
        }
      }
    }

    // At any time between calls: every submission accepted is completed, queued or with a
    // transfer, in one of these places only, and the transfers take them in order. Some may be
    // lost only if a START has come inside a transfer's own callback, which takes a library
    // that does so and a handler that submits another URB than its own.
    lemma Account(a: nat, b: nat)
      requires Valid()
      ensures |accepted| ==
        |finished| + |queue| + |lost| + (if xfer0.pending then 1 else 0) + (if xfer1.pending then 1 else 0)
      ensures nested == 0 || !reentrant || disciplined ==> lost == []
      ensures forall u :: u in queue ==> u != xfer0.priv && u != xfer1.priv
      ensures a < b && b in taken && a !in unlinked ==>
        exists i, j :: 0 <= i < j < |taken| && taken[i] == a && taken[j] == b
    {
      Conservation(accepted, finished, queue, lost, xfer0.priv, xfer1.priv);
      if a < b && b in taken {
        InOrder(|accepted|, numbers, taken, unlinked, a, b);
      }
    }
  }

  // How an URB is lost, at any time when the queue is empty and a transfer has given its URB
  // back: the completion handler submits `a`, and a START inside the callback takes that; the
  // handler submits `b`, and when it returns the callback takes the next URB for the transfer,
  // which is `b`, in the place of `a`.
  method Overtake(e: Endpoint, a: Urb, b: Urb)
    requires e.Valid() && e.reentrant && !e.disciplined && !e.xfer0.pending && e.queue == []
    requires a != b && {a, b} <= e.urbs && a != e.xfer1.priv && b != e.xfer1.priv
    modifies e, e.urbs, e.xfer0
    ensures e.Valid() && e.lost == old(e.lost) + [a] && e.accepted == old(e.accepted) + [a, b]
    ensures e.queue == [] && e.finished == old(e.finished) && e.xfer0.priv == b && e.nested == old(e.nested) + 1
  {
    hide Endpoint.Places, Endpoint.Records;
    e.TransferHas(e.xfer0);
    e.Unqueued(a);
    e.Enqueue(a);
    e.Nest();
    e.Take(e.xfer0);
    e.Unqueued(b);
    e.Enqueue(b);
    e.Take(e.xfer0);
  }

  // A run from the start: `c` is completed, and `a` is lost.
  method LosingRun(a: Urb, b: Urb, c: Urb) returns (e: Endpoint)
    requires a != b && b != c && a != c && !a.queued && !b.queued && !c.queued
    modifies {a, b, c}
    ensures e.Valid() && e.accepted == [c, a, b] && e.finished == [c] && e.lost == [a]
    ensures e.queue == [] && e.xfer0.priv == b && e.xfer1.priv == null && e.nested == 1
  {
    hide Endpoint.Places, Endpoint.Records;
    e := new Endpoint(Bulk, 8, {a, b, c}, true, false);
    e.Enqueue(c);
    e.TransferHas(e.xfer0);
    e.Take(e.xfer0);
    c.status := 0;
    e.GiveBack(e.xfer0);
    Overtake(e, a, b);
  }
}
