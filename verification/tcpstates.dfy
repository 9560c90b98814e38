// tcpstates.bpf.c: how long a socket stayed in each TCP state.
module TcpStates {
  import opened Machine

  const IPPROTO_TCP := 6
  const TCP_CLOSE := 7

  datatype Transition = Transition(
    sk: U64, family: nat, protocol: nat, sport: nat, dport: nat, oldstate: int, newstate: int, ts: U64)

  datatype Event = Event(
    skaddr: U64, tsUs: U64, deltaUs: U64, oldstate: int, newstate: int, family: nat, sport: nat, dport: nat)

  datatype Config = Config(
    targetFamily: int, filterBySport: bool, filterByDport: bool, sports: set<nat>, dports: set<nat>)

  // Does a transition pass the filters?
  predicate Traced(c: Config, t: Transition) {
    && t.protocol == IPPROTO_TCP
    && (c.targetFamily == 0 || c.targetFamily == t.family)
    && (c.filterBySport ==> t.sport in c.sports)
    && (c.filterByDport ==> t.dport in c.dports)
  }

  datatype State = State(timestamps: map<U64, U64>, out: seq<Event>)

  function Report(t: Transition, deltaUs: U64): Event {
    Event(t.sk, t.ts / 1000, deltaUs, t.oldstate, t.newstate, t.family, t.sport, t.dport)
  }

  function Step(c: Config, s: State, t: Transition): State {
    if !Traced(c, t) then s
    else
      var deltaUs := if t.sk in s.timestamps then Wrap64(t.ts - s.timestamps[t.sk]) / 1000 else 0;
      var timestamps := if t.newstate == TCP_CLOSE then s.timestamps - {t.sk} else s.timestamps[t.sk := t.ts];
      State(timestamps, s.out + [Report(t, deltaUs)])
  }

  function Run(c: Config, h: seq<Transition>): State
    decreases |h|
  {
    if h == [] then State(map[], []) else Step(c, Run(c, h[..|h| - 1]), h[|h| - 1])
  }

  class Program {
    const c: Config
    var timestamps: map<U64, U64>
    ghost var past: seq<Transition>

    ghost predicate Valid()
      reads this
    {
      timestamps == Run(c, past).timestamps
    }

    constructor (c: Config)
      ensures Valid() && past == [] && this.c == c
    {
      this.c, timestamps, past := c, map[], [];
    }

    method HandleSetState(t: Transition) returns (e: Option<Event>)
      requires Valid()
      modifies this
      ensures Valid() && past == old(past) + [t]
      ensures Run(c, past).out == old(Run(c, past).out) + if e.Some? then [e.value] else []
    {
      e := None;
      assert (past + [t])[..|past|] == past;
      past := past + [t];
      if t.protocol != IPPROTO_TCP {
        return;
      }
      if c.targetFamily != 0 && c.targetFamily != t.family {
        return;
      }
      if c.filterBySport && t.sport !in c.sports {
        return;
      }
      if c.filterByDport && t.dport !in c.dports {
        return;
      }
      var deltaUs: U64 := 0;
      if t.sk in timestamps {
        deltaUs := Wrap64(t.ts - timestamps[t.sk]) / 1000;
      }
      e := Some(Event(t.sk, t.ts / 1000, deltaUs, t.oldstate, t.newstate, t.family, t.sport, t.dport));
      if t.newstate == TCP_CLOSE {
        timestamps := timestamps - {t.sk};
      } else {
        timestamps := timestamps[t.sk := t.ts];
      }
    }
  }

  // ---------------------------------------------------------------------------
  // What the events say
  // ---------------------------------------------------------------------------

  // A TCP transition of the family asked for, with local and remote ports among those asked for.
  predicate Wanted(c: Config, t: Transition) {
    && t.protocol == 6 && c.targetFamily in {0, t.family}
    && (if c.filterBySport then t.sport in c.sports else true)
    && (if c.filterByDport then t.dport in c.dports else true)
  }

  // The event names the socket, its addresses' family and its ports, both states, and the time in
  // whole microseconds.
  predicate Says(e: Event, t: Transition) {
    && e.skaddr == t.sk && e.family == t.family && e.sport == t.sport && e.dport == t.dport
    && e.oldstate == t.oldstate && e.newstate == t.newstate
    && 1000 * e.tsUs <= t.ts < 1000 * e.tsUs + 1000
  }

  function WantedOf(c: Config, h: seq<Transition>): seq<Transition>
    decreases |h|
  {
    if h == [] then []
    else WantedOf(c, h[..|h| - 1]) + if Wanted(c, h[|h| - 1]) then [h[|h| - 1]] else []
  }

  // Every run reports the transitions asked for, in order, one event each, and no others.
  lemma {:induction false} EventsSayTransitions(c: Config, h: seq<Transition>)
    ensures var out, ts := Run(c, h).out, WantedOf(c, h);
      |out| == |ts| && forall k :: 0 <= k < |out| ==> Says(out[k], ts[k])
    decreases |h|
  {
    if h != [] {
      EventsSayTransitions(c, h[..|h| - 1]);
    }
  }

  // ---------------------------------------------------------------------------
  // One socket among many
  // ---------------------------------------------------------------------------

  // The traced transitions of a socket.
  function Own(c: Config, h: seq<Transition>, sk: U64): seq<Transition>
    decreases |h|
  {
    if h == [] then []
    else
      var t := h[|h| - 1];
      var before := Own(c, h[..|h| - 1], sk);
      if Traced(c, t) && t.sk == sk then before + [t] else before
  }

  function OwnEvents(out: seq<Event>, sk: U64): seq<Event>
    decreases |out|
  {
    if out == [] then []
    else
      var e := out[|out| - 1];
      var before := OwnEvents(out[..|out| - 1], sk);
      if e.skaddr == sk then before + [e] else before
  }

  // What the events of a socket should say, from its own transitions alone: the time since its last
  // transition, unless that one closed it.
  function Expected(own: seq<Transition>): seq<Event>
    decreases |own|
  {
    if own == [] then []
    else
      var n := |own| - 1;
      Expected(own[..n]) + [Report(own[n], SinceLast(own[..n], own[n]))]
  }

  function SinceLast(own: seq<Transition>, t: Transition): U64 {
    if own == [] || own[|own| - 1].newstate == TCP_CLOSE then 0 else Wrap64(t.ts - own[|own| - 1].ts) / 1000
  }

  lemma ExpectedSnoc(own: seq<Transition>, t: Transition)
    ensures Expected(own + [t]) == Expected(own) + [Report(t, SinceLast(own, t))]
  {
    assert (own + [t])[..|own|] == own;
  }

  // The map holds when the last transition of a socket was, unless that one closed it.
  lemma {:induction false} StampsFollow(c: Config, h: seq<Transition>, sk: U64)
    ensures var own, stamps := Own(c, h, sk), Run(c, h).timestamps;
      if own == [] || own[|own| - 1].newstate == TCP_CLOSE then sk !in stamps
      else sk in stamps && stamps[sk] == own[|own| - 1].ts
    decreases |h|
  {
    if h != [] {
      StampsFollow(c, h[..|h| - 1], sk);
    }
  }

  lemma OwnEventsSnoc(out: seq<Event>, e: Event, sk: U64)
    ensures OwnEvents(out + [e], sk) == if e.skaddr == sk then OwnEvents(out, sk) + [e] else OwnEvents(out, sk)
  {
    assert (out + [e])[..|out|] == out;
  }

  // However sockets interleave, the events of each are those of its own transitions.
  lemma {:induction false} SocketsDoNotInterfere(c: Config, h: seq<Transition>, sk: U64)
    ensures OwnEvents(Run(c, h).out, sk) == Expected(Own(c, h, sk))
    decreases |h|
  {
    if h != [] {
      var before, t := h[..|h| - 1], h[|h| - 1];
      SocketsDoNotInterfere(c, before, sk);
      if Traced(c, t) {
        StampsFollow(c, before, t.sk);
        var own := Own(c, before, t.sk);
        OwnEventsSnoc(Run(c, before).out, Report(t, SinceLast(own, t)), sk);
        ExpectedSnoc(own, t);
      }
    }
  }

  // ---------------------------------------------------------------------------
  // Sessions
  // ---------------------------------------------------------------------------

  // own[i..j] is one use of a socket as far as it is traced: from the first traced transition on, up
  // to and including a traced close if that has come.
  predicate Session(own: seq<Transition>, i: nat, j: nat) {
    && i < j <= |own|
    && (i == 0 || own[i - 1].newstate == TCP_CLOSE)
    && forall k :: i <= k < j - 1 ==> own[k].newstate != TCP_CLOSE
  }

  predicate InOrder(h: seq<Transition>) {
    forall i, j :: 0 <= i <= j < |h| ==> h[i].ts <= h[j].ts
  }

  // The durations that events i to j - 1 report.
  function Durations(es: seq<Event>, i: nat, j: nat): nat
    requires i <= j <= |es|
    decreases j
  {
    if i == j then 0 else Durations(es, i, j - 1) + es[j - 1].deltaUs
  }

  lemma {:induction false} ExpectedAt(own: seq<Transition>, k: nat)
    requires k < |own|
    ensures |Expected(own)| == |own|
    ensures Expected(own)[k] == Report(own[k],
      if k == 0 || own[k - 1].newstate == TCP_CLOSE then 0 else Wrap64(own[k].ts - own[k - 1].ts) / 1000)
    decreases |own|
  {
    var n := |own| - 1;
    if k < n {
      ExpectedAt(own[..n], k);
    } else if n > 0 {
      ExpectedAt(own[..n], 0);
    }
  }

  lemma {:induction false} SessionTime(own: seq<Transition>, i: nat, j: nat)
    requires Session(own, i, j) && InOrder(own)
    ensures |Expected(own)| == |own| && Expected(own)[i].deltaUs == 0
    ensures var sum, total := Durations(Expected(own), i, j), own[j - 1].ts - own[i].ts;
      1000 * sum <= total <= 1000 * sum + 999 * (j - i - 1)
    decreases j
  {
    ExpectedAt(own, i);
    if i + 1 < j {
      ExpectedAt(own, j - 1);
      SessionTime(own, i, j - 1);
      WrapSmall(own[j - 1].ts - own[j - 2].ts);
    } else {
      assert Durations(Expected(own), i, i) == 0;
    }
  }

  lemma {:induction false} OwnInOrder(c: Config, h: seq<Transition>, sk: U64)
    requires InOrder(h)
    ensures InOrder(Own(c, h, sk))
    ensures forall k :: 0 <= k < |Own(c, h, sk)| ==> Own(c, h, sk)[k].ts <= h[|h| - 1].ts
    decreases |h|
  {
    if h != [] {
      var before := h[..|h| - 1];
      OwnInOrder(c, before, sk);
      assert before != [] ==> before[|before| - 1].ts <= h[|h| - 1].ts;
    }
  }

  // Over every run, of any sockets in any order: the durations reported for one use of a socket fall
  // short of its whole length T by less than a microsecond for each of its n timed transitions. The
  // first event of a use reports no time, so none leaks into it past a traced close. Closes that
  // the filters drop are the subject of NoTimeIsCarriedExactly.
  lemma SessionsAreTimed(c: Config, h: seq<Transition>, sk: U64, i: nat, j: nat)
    requires InOrder(h) && Session(Own(c, h, sk), i, j)
    ensures |OwnEvents(Run(c, h).out, sk)| == |Own(c, h, sk)|
    ensures var own, es := Own(c, h, sk), OwnEvents(Run(c, h).out, sk);
      var sum, T, n := Durations(es, i, j), own[j - 1].ts - own[i].ts, j - i - 1;
      es[i].deltaUs == 0 && sum <= T / 1000 && (n > 0 ==> 1000 * sum > T - 1000 * n) && (n == 0 ==> sum == 0)
  {
    SocketsDoNotInterfere(c, h, sk);
    OwnInOrder(c, h, sk);
    SessionTime(Own(c, h, sk), i, j);
  }

  // ---------------------------------------------------------------------------
  // Closes that are not traced
  // ---------------------------------------------------------------------------

  // All transitions of a socket, traced or not.
  function AllOf(h: seq<Transition>, sk: U64): seq<Transition>
    decreases |h|
  {
    if h == [] then []
    else
      var before := AllOf(h[..|h| - 1], sk);
      if h[|h| - 1].sk == sk then before + [h[|h| - 1]] else before
  }

  // The last traced transition, and whether the socket has closed since, or with it.
  datatype Base = Base(last: Transition, closed: bool)

  predicate BaseIs(b: Base, last: Transition) {
    b.last == last && (last.newstate == TCP_CLOSE ==> b.closed)
  }

  function BaseOf(c: Config, all: seq<Transition>): Option<Base>
    decreases |all|
  {
    if all == [] then None
    else
      var t := all[|all| - 1];
      if Traced(c, t) then Some(Base(t, t.newstate == TCP_CLOSE))
      else match BaseOf(c, all[..|all| - 1])
        case None => None
        case Some(b) => Some(b.(closed := b.closed || t.newstate == TCP_CLOSE))
  }

  // The time from the last traced transition of the same use to t.
  function TimeInUse(base: Option<Base>, t: Transition): U64 {
    if base.None? || base.value.closed then 0 else Wrap64(t.ts - base.value.last.ts) / 1000
  }

  // The events of a socket if every duration stays within a use.
  function WithinUses(c: Config, all: seq<Transition>): seq<Event>
    decreases |all|
  {
    if all == [] then []
    else
      var before, t := all[..|all| - 1], all[|all| - 1];
      if Traced(c, t) then WithinUses(c, before) + [Report(t, TimeInUse(BaseOf(c, before), t))]
      else WithinUses(c, before)
  }

  // t is measured, with at least a microsecond, from a transition before a close that was dropped.
  predicate Carries(c: Config, base: Option<Base>, t: Transition) {
    && Traced(c, t) && base.Some? && base.value.closed && base.value.last.newstate != TCP_CLOSE
    && Wrap64(t.ts - base.value.last.ts) >= 1000
  }

  predicate NeverCarries(c: Config, all: seq<Transition>)
    decreases |all|
  {
    all == [] || (
      var before := all[..|all| - 1];
      !Carries(c, BaseOf(c, before), all[|all| - 1]) && NeverCarries(c, before))
  }

  lemma {:induction false} OwnHasBase(c: Config, h: seq<Transition>, sk: U64)
    ensures var own, base := Own(c, h, sk), BaseOf(c, AllOf(h, sk));
      if own == [] then base == None
      else base.Some? && BaseIs(base.value, own[|own| - 1])
    decreases |h|
  {
    if h != [] {
      var before, t := h[..|h| - 1], h[|h| - 1];
      OwnHasBase(c, before, sk);
      if t.sk == sk {
        assert (AllOf(before, sk) + [t])[..|AllOf(before, sk)|] == AllOf(before, sk);
      }
    }
  }

  lemma {:induction false} ExpectedWithinUses(c: Config, h: seq<Transition>, sk: U64)
    ensures Expected(Own(c, h, sk)) == WithinUses(c, AllOf(h, sk)) <==> NeverCarries(c, AllOf(h, sk))
    decreases |h|
  {
    if h != [] {
      var before, t := h[..|h| - 1], h[|h| - 1];
      ExpectedWithinUses(c, before, sk);
      if t.sk == sk {
        var all, own := AllOf(before, sk), Own(c, before, sk);
        assert (all + [t])[..|all|] == all;
        OwnHasBase(c, before, sk);
        if Traced(c, t) {
          ExpectedSnoc(own, t);
          WithinSnoc(c, all, t);
          SameTime(c, own, BaseOf(c, all), t);
          SnocEquals(Expected(own), Report(t, SinceLast(own, t)),
                     WithinUses(c, all), Report(t, TimeInUse(BaseOf(c, all), t)));
        }
      }
    }
  }

  lemma WithinSnoc(c: Config, all: seq<Transition>, t: Transition)
    requires Traced(c, t)
    ensures WithinUses(c, all + [t]) == WithinUses(c, all) + [Report(t, TimeInUse(BaseOf(c, all), t))]
    ensures NeverCarries(c, all + [t]) <==> !Carries(c, BaseOf(c, all), t) && NeverCarries(c, all)
  {
    assert (all + [t])[..|all|] == all;
  }

  // The program's time for t is the time within its use exactly when t carries none over.
  lemma SameTime(c: Config, own: seq<Transition>, base: Option<Base>, t: Transition)
    requires Traced(c, t)
    requires if own == [] then base == None
      else base.Some? && BaseIs(base.value, own[|own| - 1])
    ensures SinceLast(own, t) == TimeInUse(base, t) <==> !Carries(c, base, t)
  {
  }

  lemma SnocEquals<T>(a: seq<T>, x: T, b: seq<T>, y: T)
    ensures a + [x] == b + [y] <==> a == b && x == y
  {
    if a + [x] == b + [y] {
      assert |a| == |b| && (a + [x])[|a|] == (b + [y])[|b|];
      assert a == (a + [x])[..|a|] == (b + [y])[..|b|] == b;
    }
  }

  // Over every run and for any filters: all durations reported for a socket stay within its uses if
  // and only if no traced transition comes, a microsecond or more, after a traced one that an
  // untraced close separates from it.
  lemma NoTimeIsCarriedExactly(c: Config, h: seq<Transition>, sk: U64)
    ensures OwnEvents(Run(c, h).out, sk) == WithinUses(c, AllOf(h, sk)) <==> NeverCarries(c, AllOf(h, sk))
  {
    SocketsDoNotInterfere(c, h, sk);
    ExpectedWithinUses(c, h, sk);
  }

  // The filters see every close of a use of which they saw anything, as they do when its family and
  // ports do not change.
  predicate ClosesSeen(c: Config, all: seq<Transition>)
    decreases |all|
  {
    all == [] || (
      var before, t := all[..|all| - 1], all[|all| - 1];
      && (t.newstate == TCP_CLOSE && !Traced(c, t) ==> BaseOf(c, before).None? || BaseOf(c, before).value.closed)
      && ClosesSeen(c, before))
  }

  lemma {:induction false} ClosesSeenCarryNothing(c: Config, all: seq<Transition>)
    requires ClosesSeen(c, all)
    ensures NeverCarries(c, all)
    ensures BaseOf(c, all).Some? && BaseOf(c, all).value.closed ==> BaseOf(c, all).value.last.newstate == TCP_CLOSE
    decreases |all|
  {
    if all != [] {
      ClosesSeenCarryNothing(c, all[..|all| - 1]);
    }
  }
}
