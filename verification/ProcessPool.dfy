// The pool of ErizoJS processes that the agent keeps: a round-robin allocator with
// processes launched ahead of their use.
module ProcessPool {
  import opened Integers

  // Processes are numbered in the order of their launch, which stands for their random
  // identifiers. children are the ones that have neither exited nor been dropped.
  datatype Pool = Pool(idle: seq<nat>, busy: seq<nat>, children: set<nat>, launched: nat)

  datatype Limits = Limits(maxProcesses: nat, prerun: nat)

  const EMPTY: Pool := Pool([], [], {}, 0)

  function Launch(p: Pool): Pool {
    Pool(p.idle + [p.launched], p.busy, p.children + {p.launched}, p.launched + 1)
  }

  function Fill(p: Pool, l: Limits): Pool
    decreases l.maxProcesses - (|p.busy| + |p.idle|)
  {
    if |p.busy| + |p.idle| < l.maxProcesses && |p.idle| < l.prerun then Fill(Launch(p), l) else p
  }

  // A busy process is reused only if no more may be launched.
  function Get(p: Pool, l: Limits): (Pool, nat)
    requires l.maxProcesses > 0
    decreases p.idle == []
  {
    if p.idle != [] then (p.(idle := p.idle[1..]), p.idle[0])
    else if |p.busy| < l.maxProcesses then Get(Launch(p), l)
    else (p.(busy := p.busy[1..]), p.busy[0])
  }

  function Create(p: Pool, l: Limits): (Pool, nat)
    requires l.maxProcesses > 0
  {
    var (q, id) := Get(p, l);
    (Fill(q.(busy := q.busy + [id]), l), id)
  }

  function Without(s: seq<nat>, id: nat): seq<nat> {
    if s == [] then [] else if s[0] == id then s[1..] else [s[0]] + Without(s[1..], id)
  }

  // The close handler of a child.

  function Exited(p: Pool, id: nat): Pool {
    var q := if id in p.idle then p.(idle := Without(p.idle, id))
             else if id in p.busy then p.(busy := Without(p.busy, id))
             else p;
    q.(children := q.children - {id})
  }

  function Close(p: Pool, l: Limits, id: nat): Pool { Fill(Exited(p, id), l) }

  // dropErizoJS kills the process; its lists change only when it closes.
  function Drop(p: Pool, id: nat): Pool { p.(children := p.children - {id}) }

  // ---- What every run keeps ------------------------------------------------------------

  datatype Event = CreateEvent | CloseEvent(id: nat) | DropEvent(id: nat)

  function Step(p: Pool, l: Limits, e: Event): Pool
    requires l.maxProcesses > 0
  {
    match e
    case CreateEvent => Create(p, l).0
    case CloseEvent(id) => Close(p, l, id)
    case DropEvent(id) => Drop(p, id)
  }

  function Run(l: Limits, events: seq<Event>): Pool
    requires l.maxProcesses > 0
  {
    if events == [] then Fill(EMPTY, l) else Step(Run(l, events[..|events| - 1]), l, events[|events| - 1])
  }

  ghost predicate Distinct(s: seq<nat>) { forall i, j :: 0 <= i < j < |s| ==> s[i] != s[j] }

  // The lists are disjoint and duplicate-free, hold every live process, and never more
  // than maxProcesses in all.
  ghost predicate Good(p: Pool, l: Limits) {
    && Distinct(p.idle) && Distinct(p.busy) && (forall id :: id in p.idle ==> id !in p.busy)
    && (forall id :: id in p.idle || id in p.busy ==> id < p.launched)
    && (forall id :: id in p.children ==> id in p.idle || id in p.busy)
    && |p.idle| + |p.busy| <= l.maxProcesses
  }

  lemma LaunchKeepsGood(p: Pool, l: Limits)
    requires Good(p, l) && |p.idle| + |p.busy| < l.maxProcesses
    ensures Good(Launch(p), l)
  {
    assert p.launched !in p.idle && p.launched !in p.busy;
    DistinctAppend(p.idle, p.launched);
  }

  lemma DistinctAppend(s: seq<nat>, x: nat)
    requires Distinct(s) && x !in s
    ensures Distinct(s + [x])
  {
    assert forall i :: 0 <= i < |s| ==> s[i] in s;
  }

  lemma DistinctTail(s: seq<nat>)
    requires Distinct(s) && s != []
    ensures Distinct(s[1..]) && s[0] !in s[1..] && forall x :: x in s <==> x == s[0] || x in s[1..]
  {
    assert s == [s[0]] + s[1..];
  }

  // What the pool is filled up to.
  ghost predicate Filled(p: Pool, l: Limits) { |p.busy| + |p.idle| >= l.maxProcesses || |p.idle| >= l.prerun }

  lemma {:induction false} FillKeepsGood(p: Pool, l: Limits)
    requires Good(p, l)
    ensures Good(Fill(p, l), l) && Filled(Fill(p, l), l)
    ensures Fill(p, l).busy == p.busy && p.idle <= Fill(p, l).idle && p.launched <= Fill(p, l).launched
    ensures forall x :: x < p.launched ==> (x in Fill(p, l).idle <==> x in p.idle) && (x in Fill(p, l).children <==> x in p.children)
    ensures forall x :: x in Fill(p, l).idle && x >= p.launched ==> x in Fill(p, l).children
    decreases l.maxProcesses - (|p.busy| + |p.idle|)
  {
    if |p.busy| + |p.idle| < l.maxProcesses && |p.idle| < l.prerun {
      LaunchKeepsGood(p, l);
      FillKeepsGood(Launch(p), l);
    }
  }

  // Exactly so many are launched that the idle ones reach the prerun number, or all
  // together the maximum; they come last.
  lemma {:induction false} FillsExactly(p: Pool, l: Limits)
    ensures var q, n := Fill(p, l), Fill(p, l).launched;
      && n >= p.launched && q.idle == p.idle + Range(p.launched, n) && q.busy == p.busy
      && (n > p.launched ==> |q.idle| <= l.prerun && |q.busy| + |q.idle| <= l.maxProcesses)
      && (|q.idle| >= l.prerun || |q.busy| + |q.idle| >= l.maxProcesses)
    decreases l.maxProcesses - (|p.busy| + |p.idle|)
  {
    if |p.busy| + |p.idle| < l.maxProcesses && |p.idle| < l.prerun {
      FillsExactly(Launch(p), l);
      assert Range(p.launched, Fill(p, l).launched) == [p.launched] + Range(p.launched + 1, Fill(p, l).launched);
    }
  }

  // The process that a create hands out, once one has been launched if need be, and the
  // pool with it at the end of the busy list.

  function Ready(p: Pool, l: Limits): Pool {
    if p.idle == [] && |p.busy| < l.maxProcesses then Launch(p) else p
  }

  function First(p: Pool): nat
    requires p.idle != [] || p.busy != []
  {
    if p.idle != [] then p.idle[0] else p.busy[0]
  }

  function Moved(p: Pool): Pool
    requires p.idle != [] || p.busy != []
  {
    if p.idle != [] then p.(idle := p.idle[1..], busy := p.busy + [p.idle[0]]) else p.(busy := p.busy[1..] + [p.busy[0]])
  }

  lemma CreateMoves(p: Pool, l: Limits)
    requires l.maxProcesses > 0
    ensures var r := Ready(p, l);
      (r.idle != [] || r.busy != []) && Create(p, l) == (Fill(Moved(r), l), First(r))
  {
    hide Fill;
    if p.idle == [] && |p.busy| < l.maxProcesses {
      assert Get(p, l) == Get(Launch(p), l);
    }
  }

  lemma MovedKeepsGood(p: Pool, l: Limits)
    requires Good(p, l) && (p.idle != [] || p.busy != [])
    ensures Good(Moved(p), l)
  {
    if p.idle != [] {
      DistinctTail(p.idle);
      DistinctAppend(p.busy, p.idle[0]);
    } else {
      DistinctTail(p.busy);
      DistinctAppend(p.busy[1..], p.busy[0]);
    }
  }

  lemma CreateKeepsGood(p: Pool, l: Limits)
    requires Good(p, l) && l.maxProcesses > 0
    ensures var (q, id) := Create(p, l);
      Good(q, l) && Filled(q, l) && q.busy != [] && id == q.busy[|q.busy| - 1]
  {
    if p.idle == [] && |p.busy| < l.maxProcesses {
      LaunchKeepsGood(p, l);
    }
    CreateMoves(p, l);
    MovedKeepsGood(Ready(p, l), l);
    FillKeepsGood(Moved(Ready(p, l)), l);
    hide Fill, Create, Good, Ready;
  }

  lemma {:induction false} WithoutOnly(s: seq<nat>, id: nat)
    requires Distinct(s)
    ensures var t := Without(s, id);
      && Distinct(t) && (forall x :: x in t <==> x in s && x != id)
      && |t| == (if id in s then |s| - 1 else |s|)
  {
    if s != [] {
      DistinctTail(s);
      WithoutOnly(s[1..], id);
    }
  }

  lemma CloseKeepsGood(p: Pool, l: Limits, id: nat)
    requires Good(p, l)
    ensures Good(Close(p, l, id), l) && Filled(Close(p, l, id), l)
    ensures var q := Close(p, l, id);
      id < p.launched ==> id !in q.idle && id !in q.busy && id !in q.children
  {
    WithoutOnly(p.idle, id);
    WithoutOnly(p.busy, id);
    FillKeepsGood(Exited(p, id), l);
    hide Fill;
  }

  // Whatever is created, dropped and closed.
  lemma {:induction false} RunKeepsGood(l: Limits, events: seq<Event>)
    requires l.maxProcesses > 0
    ensures Good(Run(l, events), l)
  {
    hide Fill, Create, Close;
    if events == [] {
      FillKeepsGood(EMPTY, l);
    } else {
      var p := Run(l, events[..|events| - 1]);
      RunKeepsGood(l, events[..|events| - 1]);
      match events[|events| - 1] {
        case CreateEvent => CreateKeepsGood(p, l);
        case CloseEvent(id) => CloseKeepsGood(p, l, id);
        case DropEvent(id) =>
      }
    }
  }

  // The processes that have been dropped and have not closed since.
  function Dropped(l: Limits, events: seq<Event>): set<nat>
    requires l.maxProcesses > 0
  {
    if events == [] then {}
    else
      var init, e := events[..|events| - 1], events[|events| - 1];
      match e
      case CreateEvent => Dropped(l, init)
      case CloseEvent(id) => Dropped(l, init) - {id}
      case DropEvent(id) => if id in Run(l, init).children then Dropped(l, init) + {id} else Dropped(l, init)
  }

  ghost predicate Tracks(p: Pool, dropped: set<nat>) {
    && (forall id :: id in p.idle || id in p.busy ==> (id in p.children <==> id !in dropped))
    && (forall id :: id in dropped ==> id < p.launched)
  }

  lemma CreateTracks(p: Pool, l: Limits, dropped: set<nat>)
    requires l.maxProcesses > 0 && Good(p, l) && Tracks(p, dropped)
    ensures var (q, id) := Create(p, l);
      Tracks(q, dropped) && (id in q.children <==> id !in dropped)
  {
    if p.idle == [] && |p.busy| < l.maxProcesses {
      LaunchKeepsGood(p, l);
    }
    CreateMoves(p, l);
    var r := Ready(p, l);
    assert Tracks(r, dropped);
    assert forall id :: id in Moved(r).idle || id in Moved(r).busy ==> id in r.idle || id in r.busy;
    MovedKeepsGood(r, l);
    FillKeepsGood(Moved(r), l);
    assert First(r) in r.idle || First(r) in r.busy;
    hide Fill, Create, Ready;
  }

  lemma CloseTracks(p: Pool, l: Limits, id: nat, dropped: set<nat>)
    requires Good(p, l) && Tracks(p, dropped)
    ensures Tracks(Close(p, l, id), dropped - {id})
  {
    WithoutOnly(p.idle, id);
    WithoutOnly(p.busy, id);
    FillKeepsGood(Exited(p, id), l);
    hide Fill;
  }

  lemma {:induction false} DroppedAreTracked(l: Limits, events: seq<Event>)
    requires l.maxProcesses > 0
    ensures Tracks(Run(l, events), Dropped(l, events))
  {
    hide Fill, Create, Close;
    if events == [] {
      FillKeepsGood(EMPTY, l);
    } else {
      var init := events[..|events| - 1];
      DroppedAreTracked(l, init);
      RunKeepsGood(l, init);
      match events[|events| - 1] {
        case CreateEvent => CreateTracks(Run(l, init), l, Dropped(l, init));
        case CloseEvent(id) => CloseTracks(Run(l, init), l, id, Dropped(l, init));
        case DropEvent(id) =>
      }
    }
  }

  // After any run, a create hands out a live process exactly if it launches one, or if
  // the process whose turn it is is live before the call.
  lemma HandsOutLive(l: Limits, events: seq<Event>)
    requires l.maxProcesses > 0
    ensures var p := Run(l, events);
      var launches := p.idle == [] && |p.busy| < l.maxProcesses;
      && (launches || p.idle != [] || p.busy != [])
      && (Create(p, l).1 in Create(p, l).0.children <==> launches || First(p) in p.children)
      && (!launches ==> (First(p) in p.children <==> First(p) !in Dropped(l, events)))
  {
    var p := Run(l, events);
    RunKeepsGood(l, events);
    DroppedAreTracked(l, events);
    CreateMoves(p, l);
    if p.idle == [] && |p.busy| < l.maxProcesses {
      LaunchKeepsGood(p, l);
    }
    MovedKeepsGood(Ready(p, l), l);
    FillKeepsGood(Moved(Ready(p, l)), l);
    hide Run, Fill, Create, Dropped;
  }

  // ---- Turns -----------------------------------------------------------------------------

  // The pool after that many more creates.
  function CreatesFrom(p: Pool, l: Limits, k: nat): Pool
    requires l.maxProcesses > 0
    decreases k
  {
    if k == 0 then p else CreatesFrom(Create(p, l).0, l, k - 1)
  }

  // How many creates come before the one that hands out a process: the idle ones in
  // front of it, or all that may still be launched or are idle and the busy ones in
  // front of it.
  function Turn(p: Pool, l: Limits, id: nat): nat
    requires Good(p, l) && (id in p.idle || id in p.busy)
  {
    if id in p.idle then IndexOf(p.idle, id) else l.maxProcesses - |p.busy| + IndexOf(p.busy, id)
  }

  function IndexOf(s: seq<nat>, id: nat): (i: nat)
    requires id in s
    ensures i < |s| && s[i] == id && id !in s[..i]
  {
    if s[0] == id then 0 else 1 + IndexOf(s[1..], id)
  }

  lemma IndexIs(s: seq<nat>, id: nat, i: nat)
    requires Distinct(s) && i < |s| && s[i] == id
    ensures id in s && IndexOf(s, id) == i
  {
  }

  // One create brings the turn of every listed process one nearer, or hands it out.
  lemma TurnComesNearer(p: Pool, l: Limits, id: nat)
    requires l.maxProcesses > 0 && Good(p, l) && (id in p.idle || id in p.busy)
    ensures var (q, out) := Create(p, l);
      && Good(q, l) && (out == id <==> Turn(p, l, id) == 0) && (id in q.children <==> id in p.children)
      && (out != id ==> (id in q.idle || id in q.busy) && Turn(q, l, id) == Turn(p, l, id) - 1)
  {
    CreateMoves(p, l);
    CreateKeepsGood(p, l);
    var r := Ready(p, l);
    if p.idle == [] && |p.busy| < l.maxProcesses {
      LaunchKeepsGood(p, l);
    }
    MovedKeepsGood(r, l);
    var m := Moved(r);
    FillKeepsGood(m, l);
    var q := Fill(m, l);
    hide Fill, Create;
    if id in p.idle {
      var i := IndexOf(p.idle, id);
      if i > 0 {
        assert q.idle[i - 1] == m.idle[i - 1] == id;
        IndexIs(q.idle, id, i - 1);
        assert id != p.idle[0];
      }
    } else {
      var i := IndexOf(p.busy, id);
      if r.idle != [] {
        assert First(r) != id && q.busy[i] == id;
        IndexIs(q.busy, id, i);
        assert id !in q.idle;
      } else if i > 0 {
        assert q.busy[i - 1] == id;
        IndexIs(q.busy, id, i - 1);
        assert id !in q.idle;
      }
    }
  }

  // The next create that hands out a listed process is the one at its turn, and it is
  // live then exactly if it is live now: a dropped process that does not close comes up
  // again, dead.
  lemma {:induction false} HandedOutAtTurn(p: Pool, l: Limits, id: nat, k: nat)
    requires l.maxProcesses > 0 && Good(p, l) && (id in p.idle || id in p.busy) && k <= Turn(p, l, id)
    ensures var (q, out) := Create(CreatesFrom(p, l, k), l);
      (out == id <==> k == Turn(p, l, id)) && (id in q.children <==> id in p.children)
    decreases k
  {
    TurnComesNearer(p, l, id);
    hide Create, Turn, Good;
    if k > 0 {
      HandedOutAtTurn(Create(p, l).0, l, id, k - 1);
    }
  }

  // The list without its element i.
  function Cut(s: seq<nat>, i: nat): seq<nat>
    requires i < |s|
  {
    s[..i] + s[i + 1..]
  }

  lemma CutCons(x: nat, s: seq<nat>, i: nat)
    requires i < |s|
    ensures Cut([x] + s, i + 1) == [x] + Cut(s, i)
  {
  }

  // The others keep their order when one is taken out of a list.
  lemma {:induction false} WithoutCuts(s: seq<nat>, id: nat)
    ensures Without(s, id) == if id in s then Cut(s, IndexOf(s, id)) else s
  {
    if s != [] {
      assert s == [s[0]] + s[1..];
      if s[0] == id {
        assert Cut(s, 0) == s[1..];
      } else {
        WithoutCuts(s[1..], id);
        if id in s {
          assert id in s[1..];
          CutCons(s[0], s[1..], IndexOf(s[1..], id));
        }
      }
      hide Cut;
    }
  }

  lemma IndexAfterCut(s: seq<nat>, j: nat, other: nat)
    requires Distinct(s) && j < |s| && other in s && s[j] != other
    ensures var t, i := Cut(s, j), IndexOf(s, other);
      other in t && IndexOf(t, other) == if j < i then i - 1 else i
  {
    var i, t := IndexOf(s, other), Cut(s, j);
    CutDistinct(s, j);
    assert i != j && t[if j < i then i - 1 else i] == other;
    hide Distinct, Cut;
    IndexIs(t, other, if j < i then i - 1 else i);
  }

  lemma CutDistinct(s: seq<nat>, j: nat)
    requires Distinct(s) && j < |s|
    ensures Distinct(Cut(s, j))
  {
  }

  lemma IndexOfMore(s: seq<nat>, t: seq<nat>, id: nat)
    requires s <= t && id in s && Distinct(t)
    ensures id in t && IndexOf(t, id) == IndexOf(s, id)
  {
    IndexIs(t, id, IndexOf(s, id));
  }

  lemma FillKeepsTurn(p: Pool, l: Limits, id: nat)
    requires Good(p, l) && (id in p.idle || id in p.busy)
    ensures var q := Fill(p, l);
      Good(q, l) && (id in q.idle <==> id in p.idle) && (id in q.busy <==> id in p.busy) && Turn(q, l, id) == Turn(p, l, id)
  {
    FillKeepsGood(p, l);
    hide Fill, Distinct;
    if id in p.idle {
      IndexOfMore(p.idle, Fill(p, l).idle, id);
    }
  }

  lemma ExitKeepsGood(p: Pool, l: Limits, id: nat, other: nat)
    requires Good(p, l) && (other in p.idle || other in p.busy) && id != other
    ensures var q := Exited(p, id);
      && Good(q, l) && (other in q.idle <==> other in p.idle) && (other in q.busy <==> other in p.busy)
      && |q.busy| == (if id in p.busy then |p.busy| - 1 else |p.busy|)
  {
    WithoutOnly(p.idle, id);
    WithoutOnly(p.busy, id);
    hide Without, Distinct;
  }

  lemma ExitMovesTurn(p: Pool, l: Limits, id: nat, other: nat)
    requires Good(p, l) && (other in p.idle || other in p.busy) && id != other
    ensures var q := Exited(p, id);
      && Good(q, l) && (other in q.idle <==> other in p.idle) && (other in q.busy <==> other in p.busy)
      && Turn(q, l, other) == Turn(p, l, other) + TurnMove(p, id, other)
  {
    ExitKeepsGood(p, l, id, other);
    assert Distinct(p.idle) && Distinct(p.busy) && (id in p.idle ==> id !in p.busy) && (other in p.idle ==> other !in p.busy);
    assert Exited(p, id).idle == Without(p.idle, id) && Exited(p, id).busy == Without(p.busy, id) by {
      WithoutCuts(p.idle, id);
      WithoutCuts(p.busy, id);
    }
    hide Without, Distinct, Good, Exited;
    if other in p.idle {
      IndexWithout(p.idle, id, other);
    } else {
      IndexWithout(p.busy, id, other);
    }
  }

  lemma IndexWithout(s: seq<nat>, id: nat, other: nat)
    requires Distinct(s) && other in s && id != other
    ensures other in Without(s, id)
    ensures IndexOf(Without(s, id), other) == IndexOf(s, other) - (if id in s && IndexOf(s, id) < IndexOf(s, other) then 1 else 0)
  {
    WithoutCuts(s, id);
    hide Distinct, Without, Cut;
    if id in s {
      IndexAfterCut(s, IndexOf(s, id), other);
    }
  }

  // By how many creates the exit of a process moves the turn of another: to one earlier
  // behind an idle process that exits, and to one later in front of a busy one, in whose
  // place another is launched.
  function TurnMove(p: Pool, id: nat, other: nat): int {
    if id in p.idle && other in p.idle && IndexOf(p.idle, id) < IndexOf(p.idle, other) then -1
    else if id in p.busy && other in p.busy && IndexOf(p.busy, other) < IndexOf(p.busy, id) then 1
    else 0
  }

  lemma CloseMovesTurn(p: Pool, l: Limits, id: nat, other: nat)
    requires Good(p, l) && (other in p.idle || other in p.busy) && id != other
    ensures var q := Close(p, l, id);
      && Good(q, l) && (other in q.idle <==> other in p.idle) && (other in q.busy <==> other in p.busy)
      && Turn(q, l, other) == Turn(p, l, other) + TurnMove(p, id, other)
  {
    ExitMovesTurn(p, l, id, other);
    hide Exited, Fill, Good, Turn;
    FillKeepsTurn(Exited(p, id), l, other);
  }

  // A dropped one is handed out, for example, by the next create of a pool of one.
  lemma DroppedIsHandedOut()
    ensures var l := Limits(1, 1);
      var p := Run(l, [CreateEvent, DropEvent(0)]);
      0 !in p.children && Create(p, l).1 == 0
  {
    var l := Limits(1, 1);
    assert [CreateEvent, DropEvent(0)][..1] == [CreateEvent];
    assert [CreateEvent][..0] == [];
    var p := Fill(EMPTY, l);
    assert p == Pool([0], [], {0}, 1);
    var q := Create(p, l).0;
    assert q == Pool([], [0], {0}, 1);
    assert Run(l, [CreateEvent]) == q;
    assert Run(l, [CreateEvent, DropEvent(0)]) == Drop(q, 0);
  }

  // ---- Round robin ---------------------------------------------------------------------

  // The pool after that many creates, without exits.
  function Creates(l: Limits, i: nat): Pool
    requires l.maxProcesses > 0
  {
    if i == 0 then Fill(EMPTY, l) else Create(Creates(l, i - 1), l).0
  }

  function Range(lo: nat, hi: nat): (s: seq<nat>)
    requires lo <= hi
    ensures |s| == hi - lo && forall k :: 0 <= k < |s| ==> s[k] == lo + k
  {
    seq(hi - lo, k requires 0 <= k => lo + k)
  }

  // While processes are still launched, the busy ones are the first i of them; later
  // they are a rotation of all of them.
  ghost predicate Shape(p: Pool, l: Limits, i: nat)
    requires l.maxProcesses > 0
  {
    var m := l.maxProcesses;
    if i < m then
      p.busy == Range(0, i) && p.launched == Minimum(i + l.prerun, m) && p.idle == Range(i, p.launched)
    else
      p.busy == Range(i % m, m) + Range(0, i % m) && p.launched == m && p.idle == []
  }

  lemma {:induction false} FillsUp(p: Pool, l: Limits, a: nat)
    requires a <= p.launched <= Minimum(a + l.prerun, l.maxProcesses) && |p.busy| == a && p.idle == Range(a, p.launched)
    ensures var q := Fill(p, l);
      q.busy == p.busy && q.launched == Minimum(a + l.prerun, l.maxProcesses) && q.idle == Range(a, q.launched)
    decreases l.maxProcesses - p.launched
  {
    if p.launched < Minimum(a + l.prerun, l.maxProcesses) {
      assert Launch(p).idle == Range(a, p.launched + 1);
      FillsUp(Launch(p), l, a);
    }
  }

  // The i-th create, counted from 0, returns the (i mod M)-th process.
  lemma {:induction false} RoundRobin(l: Limits, i: nat)
    requires l.maxProcesses > 0
    ensures Shape(Creates(l, i), l, i) && Create(Creates(l, i), l).1 == i % l.maxProcesses
  {
    if i == 0 {
      FillsUp(EMPTY, l, 0);
    } else {
      RoundRobin(l, i - 1);
      CreateKeepsShape(Creates(l, i - 1), l, i - 1);
    }
    CreateKeepsShape(Creates(l, i), l, i);
  }

  lemma CreateKeepsShape(p: Pool, l: Limits, i: nat)
    requires l.maxProcesses > 0 && Shape(p, l, i)
    ensures Create(p, l).1 == i % l.maxProcesses && Shape(Create(p, l).0, l, i + 1)
  {
    CreateMoves(p, l);
    if i < l.maxProcesses {
      Launches(p, l, i);
      FillsUp(Moved(Ready(p, l)), l, i + 1);
      hide Fill, Create, Moved, Ready, First, Shape;
      ShapeOfFilled(Fill(Moved(Ready(p, l)), l), l, i + 1);
      Remainder(0, i, l.maxProcesses);
    } else {
      hide Fill, Create, Moved, First, Shape;
      Rotates(p, l, i);
    }
  }

  lemma ShapeOfFilled(p: Pool, l: Limits, i: nat)
    requires 0 < i <= l.maxProcesses && p.busy == Range(0, i) && p.launched == Minimum(i + l.prerun, l.maxProcesses) && p.idle == Range(i, p.launched)
    ensures Shape(p, l, i)
  {
    if i == l.maxProcesses {
      Remainder(1, 0, i);
      assert Range(0, i) + Range(0, 0) == Range(0, i);
    }
  }

  lemma Launches(p: Pool, l: Limits, i: nat)
    requires i < l.maxProcesses && Shape(p, l, i)
    ensures var r := Ready(p, l);
      && (r.idle != [] || r.busy != []) && First(r) == i
      && Moved(r).busy == Range(0, i + 1) && i + 1 <= Moved(r).launched <= Minimum(i + 1 + l.prerun, l.maxProcesses)
      && Moved(r).idle == Range(i + 1, Moved(r).launched)
  {
  }

  lemma Rotates(p: Pool, l: Limits, i: nat)
    requires 0 < l.maxProcesses <= i && Shape(p, l, i)
    ensures First(p) == i % l.maxProcesses && Ready(p, l) == p && Fill(Moved(p), l) == Moved(p) && Shape(Moved(p), l, i + 1)
  {
    var m, k := l.maxProcesses, i % l.maxProcesses;
    NextRemainder(i, m);
    if k + 1 == m {
      assert Moved(p).busy == Range(0, m);
    } else {
      assert Moved(p).busy == Range(k + 1, m) + Range(0, k + 1);
    }
  }

  lemma NextRemainder(i: nat, m: nat)
    requires m > 0
    ensures (i + 1) % m == if i % m + 1 == m then 0 else i % m + 1
  {
    var q, r := i / m, i % m;
    assert i == q * m + r;
    if r + 1 == m {
      assert i + 1 == (q + 1) * m;
      Remainder(q + 1, 0, m);
    } else {
      Remainder(q, r + 1, m);
    }
  }

  lemma Remainder(q: nat, r: nat, m: nat)
    requires r < m
    ensures (q * m + r) % m == r
  {
    var n := q * m + r;
    var d := n / m - q;
    assert n == (q + d) * m + n % m;
    assert d * m == r - n % m;
    assert d >= 1 ==> d * m >= m;
    assert d <= -1 ==> d * m + m <= 0;
  }

  // ---- The agent -------------------------------------------------------------------------

  class ErizoAgent {
    const limits: Limits
    var idleErizos: seq<nat>
    var erizos: seq<nat>
    var children: set<nat>
    var launched: nat

    ghost function State(): Pool
      reads this
    {
      Pool(idleErizos, erizos, children, launched)
    }

    constructor (limits: Limits)
      requires limits.maxProcesses > 0
      ensures this.limits == limits && State() == Run(limits, [])
    {
      this.limits := limits;
      idleErizos, erizos, children, launched := [], [], {}, 0;
      new;
      FillErizos();
    }

    method LaunchErizoJS()
      modifies this
      ensures State() == Launch(old(State()))
    {
      var id := launched;
      launched := launched + 1;
      children := children + {id};
      idleErizos := idleErizos + [id];
    }

    method FillErizos()
      modifies this
      ensures State() == Fill(old(State()), limits)
      decreases limits.maxProcesses - (|erizos| + |idleErizos|)
    {
      if |erizos| + |idleErizos| < limits.maxProcesses {
        if |idleErizos| < limits.prerun {
          LaunchErizoJS();
          FillErizos();
        }
      }
    }

    method GetErizo() returns (id: nat)
      requires limits.maxProcesses > 0
      modifies this
      ensures (State(), id) == Get(old(State()), limits)
      decreases idleErizos == []
    {
      if |idleErizos| > 0 {
        id := idleErizos[0];
        idleErizos := idleErizos[1..];
      } else if |erizos| < limits.maxProcesses {
        LaunchErizoJS();
        id := GetErizo();
      } else {
        id := erizos[0];
        erizos := erizos[1..];
      }
    }

    method CreateErizoJS() returns (id: nat)
      requires limits.maxProcesses > 0
      modifies this
      ensures (State(), id) == Create(old(State()), limits)
    {
      hide Fill, Get;
      id := GetErizo();
      erizos := erizos + [id];
      FillErizos();
    }

    method OnClose(id: nat)
      modifies this
      ensures State() == Close(old(State()), limits, id)
    {
      hide Fill;
      if id in idleErizos {
        idleErizos := Without(idleErizos, id);
      } else if id in erizos {
        erizos := Without(erizos, id);
      }
      children := children - {id};
      FillErizos();
    }

    method DropErizoJS(id: nat) returns (ok: bool)
      modifies this
      ensures ok <==> id in old(children)
      ensures State() == Drop(old(State()), id)
    {
      ok := id in children;
      if ok {
        children := children - {id};
      }
      assert !ok ==> children - {id} == children;
    }
  }
}
