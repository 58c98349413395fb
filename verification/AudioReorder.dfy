/** The audio reorder buffer (src/service/ap_mirroring_audio_stream_service.cpp): packets arrive in
    any order, some never, some twice, and are handed on by sequence number. */
module AudioReorder {

  /** Sequence numbers are 16 bits wide. */
  const WRAP: int := 0x1_0000

  /** MAX_CACHED_PACKET_SIZE */
  const MAX_CACHED: nat := 10

  datatype Packet = Packet(seqno: int, data: seq<bv8>)
  {
    ghost predicate Valid() { 0 <= seqno < WRAP }
  }

  /** What the socket delivers: `ok` if there was no error, at least twelve bytes came and the
      payload type is audio. */
  datatype Datagram = Datagram(ok: bool, packet: Packet)

  function Next(s: int): (r: int)
  {
    (s + 1) % WRAP
  }

  // ---- Orders of delivery ----

  /** Each number follows the one before, modulo 2^16. */
  ghost predicate Consecutive(d: seq<Packet>)
  {
    forall i | 0 < i < |d| :: d[i].seqno == Next(d[i - 1].seqno)
  }

  ghost predicate Sorted(d: seq<Packet>)
  {
    forall i, j | 0 <= i < j < |d| :: d[i].seqno <= d[j].seqno
  }

  ghost predicate StrictlyIncreasing(d: seq<Packet>)
  {
    forall i, j | 0 <= i < j < |d| :: d[i].seqno < d[j].seqno
  }

  /** No packet of a comes after one of b. */
  ghost predicate NotAfter(a: seq<Packet>, b: multiset<Packet>)
  {
    forall i, q | 0 <= i < |a| && q in b :: a[i].seqno <= q.seqno
  }

  /** `out` continues from e, so that the next expected number is e1. */
  ghost predicate Continues(out: seq<Packet>, e: int, e1: int)
  {
    if out == [] then e1 == e
    else out[0].seqno == e && Consecutive(out) && e1 == Next(out[|out| - 1].seqno)
  }

  /** What a drain does: it takes packets off the front of the queue as long as the first one is
      the expected one. */
  ghost predicate Drained(q: multiset<Packet>, e: int, out: seq<Packet>, q1: multiset<Packet>, e1: int)
  {
    && q == multiset(out) + q1 && NotAfter(out, q1) && Continues(out, e, e1)
    && (q1 == multiset{} || exists p :: First(q1, p) && p.seqno != e1)
  }

  /** What a flush does: it empties the queue in order. */
  ghost predicate Flushed(q: multiset<Packet>, out: seq<Packet>, e1: int)
  {
    q == multiset(out) && Sorted(out) && out != [] && e1 == Next(out[|out| - 1].seqno)
  }

  ghost predicate First(q: multiset<Packet>, p: Packet)
  {
    p in q && forall r | r in q :: p.seqno <= r.seqno
  }

  lemma {:induction false} HasFirst(q: multiset<Packet>)
    requires q != multiset{}
    ensures exists p :: First(q, p)
    decreases |q|
  {
    var p :| p in q;
    var rest := q - multiset{p};
    if rest == multiset{} {
      assert q == multiset{p};
      assert First(q, p);
    } else {
      HasFirst(rest);
      var r :| First(rest, r);
      assert First(q, if p.seqno <= r.seqno then p else r);
    }
  }

  /** r and t are two packets of m, equal or not, with the same number. */
  ghost predicate Repeats(m: multiset<Packet>, r: Packet, t: Packet)
  {
    r in m && t in m - multiset{r} && r.seqno == t.seqno
  }

  /** No number occurs twice. */
  ghost predicate Distinct(m: multiset<Packet>)
  {
    forall r, t :: !Repeats(m, r, t)
  }

  ghost predicate EndsWith(d: seq<Packet>, r: seq<Packet>)
  {
    |r| <= |d| && d[|d| - |r|..] == r
  }

  // ---- The service ----

  class AudioStream {
    var expected: int
    /** The priority queue, smallest number first; which of two equal ones comes first is open. */
    var queue: multiset<Packet>
    /** Everything the handler was given, and the part of it since the last flush or restart; a
        restart happens when the expected number is 0. */
    ghost var delivered: seq<Packet>
    ghost var run: seq<Packet>
    /** Everything that arrived; what was too late; what a flush displaced. */
    ghost var accepted: multiset<Packet>
    ghost var late: multiset<Packet>
    ghost var displaced: multiset<Packet>

    ghost predicate Valid()
      reads this
    {
      && 0 <= expected < WRAP && |queue| <= MAX_CACHED
      && (forall p | p in accepted :: p.Valid())
      && Conserved()
      && Consecutive(run) && EndsWith(delivered, run)
      && (run != [] ==> expected == Next(run[|run| - 1].seqno))
    }

    ghost predicate Ordered()
      reads this
    {
      IsOrdered(expected, queue, delivered)
    }

    ghost predicate Steady()
      reads this
    {
      IsSteady(expected, queue)
    }

    /** Every packet that arrived is in exactly one place. */
    ghost predicate Conserved()
      reads this
    {
      Accounts(accepted, delivered, queue, late, displaced)
    }

    constructor ()
      ensures Valid() && Ordered() && Steady() && expected == 0 && queue == multiset{}
      ensures delivered == [] && accepted == multiset{} && late == multiset{}
    {
      expected, queue := 0, multiset{};
      delivered, run, accepted, late, displaced := [], [], multiset{}, multiset{}, multiset{};
    }

    lemma NotAbove(r: Packet)
      requires r in queue && r.seqno <= expected
      ensures !Ordered()
    {
    }

    lemma QueueArrived()
      requires Valid()
      ensures forall p | p in queue :: p in accepted
    {
      AllIn(accepted, delivered, queue, late, displaced);
    }

    /** `audio_data_packet` and the assignment to `expected_seq_` that always follows it. */
    method Deliver(p: Packet)
      requires p.Valid()
      modifies `expected, `delivered
      ensures expected == Next(p.seqno) && delivered == old(delivered) + [p]
    {
      delivered := delivered + [p];
      expected := Next(p.seqno);
    }

    /** `process_cached_packet(flush)`. `out` is what it hands on. */
    method ProcessCached(flush: bool) returns (ghost out: seq<Packet>)
      requires flush ==> queue != multiset{}
      requires forall p | p in queue :: p.Valid()
      modifies `expected, `queue, `delivered
      ensures delivered == old(delivered) + out
      ensures if flush then queue == multiset{} && Flushed(old(queue), out, expected)
              else Drained(old(queue), old(expected), out, queue, expected)
    {
      hide NotAfter, Continues, Sorted, Next, Packet.Valid;
      ghost var d0, q0, e0 := delivered, queue, expected;
      out := [];
      NothingTaken(queue, expected, flush);
      while queue != multiset{}
        invariant delivered == d0 + out && Taking(q0, e0, out, queue, expected, flush)
        invariant forall p | p in queue :: p.Valid()
        decreases |queue|
      {
        HasFirst(queue);
        var p :| p in queue && forall r | r in queue :: p.seqno <= r.seqno;
        assert First(queue, p);
        if flush || p.seqno == expected {
          TakeNext(q0, e0, out, queue, expected, flush, p);
          queue := queue - multiset{p};
          Deliver(p);
          out := out + [p];
        } else {
          break;
        }
      }
    }

    /** `data_handler`. `out` is what it hands on. */
    method DataHandler(d: Datagram) returns (ghost out: seq<Packet>)
      requires Valid() && d.packet.Valid()
      modifies this
      ensures Valid()
      // a datagram that is not an audio packet changes nothing
      ensures !d.ok ==> expected == old(expected) && queue == old(queue) && out == []
                        && accepted == old(accepted) && late == old(late) && displaced == old(displaced)
      ensures delivered == old(delivered) + out
      ensures d.ok ==> accepted == old(accepted) + multiset{d.packet}
      ensures d.ok ==> Handled(d.packet, old(expected), old(queue), out, queue, expected)
      // too late; ten packets wait at most, and when ten wait and another comes ahead of its turn, they are handed on
      // and that one is dropped
      ensures late == if d.ok && d.packet.seqno < old(expected) then old(late) + multiset{d.packet} else old(late)
      ensures |queue| <= 10
      ensures var full := d.ok && |old(queue)| == 10 && 0 < old(expected) < d.packet.seqno;
        && displaced == (if full then old(displaced) + multiset{d.packet} else old(displaced))
        && (full ==> queue == multiset{} && multiset(out) == old(queue))
      ensures run == if !d.ok then old(run) else if Full(d.packet, old(expected), old(queue)) then []
                     else if old(expected) == 0 then out else old(run) + out
      ensures old(Ordered()) ==> (Ordered() <==> !d.ok || KeepsOrder(d.packet, old(expected), old(queue)))
      ensures old(Steady()) && (d.ok ==> NewNumber(d.packet, old(queue))) ==> Steady()
    {
      hide IsOrdered, IsSteady, KeepsOrder, NewNumber;
      hide Drained, Accounts, Consecutive, EndsWith;
      out := [];
      if d.ok {
        ghost var e0, q0, d0 := expected, queue, delivered;
        out := Handle(d.packet);
        if IsOrdered(e0, q0, d0) {
          StaysOrdered(d.packet, e0, q0, d0, out, queue, expected);
        }
        if IsSteady(e0, q0) && NewNumber(d.packet, q0) {
          StaysSteady(d.packet, e0, q0, out, queue, expected);
        }
      }
    }

    /** The part of `data_handler` after the checks. */
    method Handle(p: Packet) returns (ghost out: seq<Packet>)
      requires Valid() && p.Valid()
      modifies this
      ensures Valid() && accepted == old(accepted) + multiset{p} && delivered == old(delivered) + out
      ensures Handled(p, old(expected), old(queue), out, queue, expected)
      ensures late == if Late(p, old(expected)) then old(late) + multiset{p} else old(late)
      ensures displaced == if Full(p, old(expected), old(queue)) then old(displaced) + multiset{p} else old(displaced)
      ensures run == if Full(p, old(expected), old(queue)) then [] else if old(expected) == 0 then out else old(run) + out
    {
      hide Consecutive, EndsWith, Drained, Flushed, Next, Accounts;
      out := [];
      if expected == 0 {
        expected := p.seqno;
        NothingYet(delivered);
        run := [];
      }
      if p.seqno == expected {
        var rest := HandleExpected(p);
        out := [p] + rest;
        assert out[1..] == rest;
      } else if p.seqno > expected {
        if |queue| < MAX_CACHED {
          CachePacket(p);
        } else {
          out := HandleFull(p);
        }
      } else {
        Abandon(p);
      }
    }

    /** `cache_packet`. */
    method CachePacket(p: Packet)
      requires Valid() && p.Valid() && |queue| < MAX_CACHED
      modifies `queue, `accepted
      ensures Valid() && queue == old(queue) + multiset{p} && accepted == old(accepted) + multiset{p}
    {
      hide Consecutive, EndsWith, Next, Accounts, Packet.Valid;
      KeepConserves(p, accepted, delivered, queue, late, displaced);
      StillValid(p, accepted);
      queue := queue + multiset{p};
      accepted := accepted + multiset{p};
    }

    /** The packet is too late. */
    method Abandon(p: Packet)
      requires Valid() && p.Valid()
      modifies `late, `accepted
      ensures Valid() && late == old(late) + multiset{p} && accepted == old(accepted) + multiset{p}
    {
      hide Consecutive, EndsWith, Next, Accounts, Packet.Valid;
      KeepConserves(p, accepted, delivered, queue, late, displaced);
      StillValid(p, accepted);
      accepted := accepted + multiset{p};
      late := late + multiset{p};
    }

    /** The expected packet, and the cached ones that it was holding up. */
    method HandleExpected(p: Packet) returns (ghost rest: seq<Packet>)
      requires Valid() && p.Valid() && p.seqno == expected
      modifies `expected, `queue, `delivered, `run, `accepted
      ensures Valid() && accepted == old(accepted) + multiset{p}
      ensures delivered == old(delivered) + ([p] + rest) && run == old(run) + ([p] + rest)
      ensures Drained(old(queue), Next(p.seqno), rest, queue, expected)
    {
      hide Consecutive, EndsWith, Drained, Next, Packet.Valid, Accounts;
      ghost var d0, q0, run0, a0 := delivered, queue, run, accepted;
      AllIn(a0, d0, q0, late, displaced);
      StillValid(p, a0);
      Deliver(p);
      rest := ProcessCached(false);
      accepted := accepted + multiset{p};
      run := run0 + ([p] + rest);
      assert delivered == d0 + ([p] + rest);
      RunGrows(d0, run0, p, rest, q0, queue, expected);
      DrainConserves(p, a0, d0, q0, late, displaced, rest, queue, expected);
    }

    /** A full queue is flushed, and the packet that found it full is dropped. */
    method HandleFull(p: Packet) returns (ghost out: seq<Packet>)
      requires Valid() && p.Valid() && |queue| >= MAX_CACHED
      modifies `expected, `queue, `delivered, `run, `accepted, `displaced
      ensures Valid() && accepted == old(accepted) + multiset{p} && displaced == old(displaced) + multiset{p} && run == []
      ensures delivered == old(delivered) + out && queue == multiset{} && Flushed(old(queue), out, expected)
    {
      hide Consecutive, EndsWith, Flushed, Next, Packet.Valid, Accounts;
      ghost var d0, q0, a0 := delivered, queue, accepted;
      AllIn(a0, d0, q0, late, displaced);
      StillValid(p, a0);
      out := ProcessCached(true);
      FlushConserves(p, a0, d0, q0, late, displaced, out, expected);
      accepted := accepted + multiset{p};
      displaced := displaced + multiset{p};
      NothingYet(delivered);
      run := [];
    }
  }

  // ---- Whole runs ----

  /** The audio packets among the first datagrams. */
  ghost function Arrived(a: seq<Datagram>): multiset<Packet>
  {
    if a == [] then multiset{}
    else
      var d := a[|a| - 1];
      Arrived(a[..|a| - 1]) + (if d.ok then multiset{d.packet} else multiset{})
  }

  /** No two audio packets carry the same number, and none the number 65535. */
  ghost predicate NumbersDiffer(a: seq<Datagram>)
  {
    && (forall i | 0 <= i < |a| && a[i].ok :: a[i].packet.seqno < WRAP - 1)
    && (forall i, j | 0 <= i < j < |a| && a[i].ok && a[j].ok :: a[i].packet.seqno != a[j].packet.seqno)
  }

  lemma {:induction false} ArrivedFrom(a: seq<Datagram>, p: Packet)
    requires p in Arrived(a)
    ensures exists i :: 0 <= i < |a| && a[i].ok && a[i].packet == p
  {
    if a != [] {
      var n := |a| - 1;
      if a[n].ok && a[n].packet == p {
      } else {
        ArrivedFrom(a[..n], p);
        var i :| 0 <= i < n && a[..n][i].ok && a[..n][i].packet == p;
        assert a[i].ok && a[i].packet == p;
      }
    }
  }

  /** Any run, in any order, with losses and repetitions: every packet is accounted for, at most ten
      wait, and what was handed on since the last flush or restart is consecutive. When numbers do
      not repeat, everything that was handed on is in order, and what waits is still to come. */
  method Play(arrivals: seq<Datagram>) returns (s: AudioStream)
    requires forall i | 0 <= i < |arrivals| :: arrivals[i].packet.Valid()
    ensures fresh(s) && s.Valid() && s.accepted == Arrived(arrivals)
    ensures Arrived(arrivals) == multiset(s.delivered) + s.queue + s.late + s.displaced && |s.queue| <= 10
    ensures forall i | 0 < i < |s.run| :: s.run[i].seqno == (s.run[i - 1].seqno + 1) % 65536
    ensures NumbersDiffer(arrivals) ==> StrictlyIncreasing(s.delivered) && forall p | p in s.queue :: s.expected < p.seqno
  {
    hide AudioStream.Valid, IsOrdered, IsSteady, Handled, Arrived, NumbersDiffer, KeepsOrder, NewNumber, Late, Full;
    hide StrictlyIncreasing;
    s := new AudioStream();
    NothingArrived();
    for i := 0 to |arrivals|
      invariant fresh(s) && s.Valid() && s.accepted == Arrived(arrivals[..i])
      invariant NumbersDiffer(arrivals) ==> s.Ordered() && s.Steady()
    {
      ArrivedNext(arrivals, i);
      if arrivals[i].ok && NumbersDiffer(arrivals) {
        s.QueueArrived();
        IsNew(arrivals, i, s.queue);
        SteadyKeeps(arrivals[i].packet, s.expected, s.queue, s.delivered);
      }
      var out := s.DataHandler(arrivals[i]);
    }
    assert arrivals[..|arrivals|] == arrivals;
    WhereTheyAre(s);
    if NumbersDiffer(arrivals) {
      InOrder(s.expected, s.queue, s.delivered);
    }
  }

  /** Every packet is in one place, and the last run counts on. */
  lemma WhereTheyAre(s: AudioStream)
    requires s.Valid()
    ensures s.accepted == multiset(s.delivered) + s.queue + s.late + s.displaced && |s.queue| <= 10
    ensures forall i | 0 < i < |s.run| :: s.run[i].seqno == (s.run[i - 1].seqno + 1) % 65536
    ensures s.run == s.delivered[|s.delivered| - |s.run|..]
  {
  }

  lemma NothingArrived()
    ensures Arrived([]) == multiset{}
  {
  }

  lemma InOrder(e: int, q: multiset<Packet>, d: seq<Packet>)
    requires IsOrdered(e, q, d)
    ensures StrictlyIncreasing(d) && forall p | p in q :: e < p.seqno
  {
  }

  lemma ArrivedNext(a: seq<Datagram>, i: nat)
    requires i < |a|
    ensures Arrived(a[..i + 1]) == if a[i].ok then Arrived(a[..i]) + multiset{a[i].packet} else Arrived(a[..i])
  {
    assert a[..i + 1][..i] == a[..i];
  }

  lemma IsNew(a: seq<Datagram>, i: nat, q: multiset<Packet>)
    requires i < |a| && a[i].ok && NumbersDiffer(a) && forall r | r in q :: r in Arrived(a[..i])
    ensures NewNumber(a[i].packet, q)
  {
    forall r | r in q
      ensures r.seqno != a[i].packet.seqno
    {
      ArrivedFrom(a[..i], r);
    }
  }

  // ---- Draining ----

  /** The loop invariant of `ProcessCached`: `out` was taken off q0, and q is left. */
  ghost predicate Taking(q0: multiset<Packet>, e0: int, out: seq<Packet>, q: multiset<Packet>, e: int, flush: bool)
  {
    && q0 == multiset(out) + q && NotAfter(out, q)
    && (if flush then Sorted(out) && (out != [] ==> e == Next(out[|out| - 1].seqno)) else Continues(out, e0, e))
  }

  lemma NothingTaken(q: multiset<Packet>, e: int, flush: bool)
    ensures Taking(q, e, [], q, e, flush)
  {
  }

  lemma TakeNext(q0: multiset<Packet>, e0: int, out: seq<Packet>, q: multiset<Packet>, e: int, flush: bool, p: Packet)
    requires Taking(q0, e0, out, q, e, flush) && First(q, p) && (flush || p.seqno == e)
    ensures Taking(q0, e0, out + [p], q - multiset{p}, Next(p.seqno), flush)
  {
    hide NotAfter, Sorted, Continues, First, Next;
    IsIn(q, p);
    MoveOne(out, q, p);
    FrontNotAfter(out, q, p);
    if flush {
      FrontSorted(out, q, p);
    } else {
      ContinuesOn(out, e0, e, p);
    }
  }

  lemma IsIn(q: multiset<Packet>, p: Packet)
    requires First(q, p)
    ensures p in q
  {
  }

  lemma MoveOne(out: seq<Packet>, q: multiset<Packet>, p: Packet)
    requires p in q
    ensures multiset(out + [p]) + (q - multiset{p}) == multiset(out) + q
  {
    assert q == multiset{p} + (q - multiset{p});
  }

  lemma FrontNotAfter(out: seq<Packet>, q: multiset<Packet>, p: Packet)
    requires NotAfter(out, q) && First(q, p)
    ensures NotAfter(out + [p], q - multiset{p})
  {
    forall i, r | 0 <= i < |out + [p]| && r in q - multiset{p}
      ensures (out + [p])[i].seqno <= r.seqno
    {
      assert r in q;
    }
  }

  lemma FrontSorted(out: seq<Packet>, q: multiset<Packet>, p: Packet)
    requires Sorted(out) && NotAfter(out, q) && p in q
    ensures Sorted(out + [p])
  {
  }

  lemma ContinuesOn(out: seq<Packet>, e0: int, e: int, p: Packet)
    requires Continues(out, e0, e) && p.seqno == e
    ensures Continues(out + [p], e0, Next(e))
  {
  }

  lemma NothingYet(d: seq<Packet>)
    ensures Consecutive([]) && EndsWith(d, [])
  {
  }

  // ---- Conservation ----

  ghost predicate Accounts(accepted: multiset<Packet>, d: seq<Packet>, q: multiset<Packet>, late: multiset<Packet>,
                           displaced: multiset<Packet>)
  {
    accepted == multiset(d) + q + late + displaced
  }

  /** What is cached arrived. */
  lemma AllIn(accepted: multiset<Packet>, d: seq<Packet>, q: multiset<Packet>, late: multiset<Packet>,
      displaced: multiset<Packet>)
    requires Accounts(accepted, d, q, late, displaced)
    ensures forall p | p in q :: p in accepted
  {
  }

  lemma DrainConserves(p: Packet, accepted: multiset<Packet>, d: seq<Packet>, q: multiset<Packet>, late: multiset<Packet>,
                       displaced: multiset<Packet>, out: seq<Packet>, q1: multiset<Packet>, e1: int)
    requires Accounts(accepted, d, q, late, displaced) && Drained(q, Next(p.seqno), out, q1, e1) && p.Valid()
    ensures Accounts(accepted + multiset{p}, d + ([p] + out), q1, late, displaced)
    ensures |q1| <= |q| && 0 <= e1 < WRAP
  {
    hide NotAfter, First;
    assert q == multiset(out) + q1;
    assert multiset(d + ([p] + out)) == multiset(d) + multiset{p} + multiset(out);
    assert |q| == |multiset(out)| + |q1|;
  }

  lemma FlushConserves(p: Packet, accepted: multiset<Packet>, d: seq<Packet>, q: multiset<Packet>, late: multiset<Packet>,
                       displaced: multiset<Packet>, out: seq<Packet>, e1: int)
    requires Accounts(accepted, d, q, late, displaced) && Flushed(q, out, e1)
    ensures Accounts(accepted + multiset{p}, d + out, multiset{}, late, displaced + multiset{p})
    ensures 0 <= e1 < WRAP
  {
    hide Sorted;
    assert multiset(d + out) == multiset(d) + multiset(out);
  }

  lemma KeepConserves(p: Packet, accepted: multiset<Packet>, d: seq<Packet>, q: multiset<Packet>, late: multiset<Packet>,
                      displaced: multiset<Packet>)
    requires Accounts(accepted, d, q, late, displaced)
    ensures Accounts(accepted + multiset{p}, d, q + multiset{p}, late, displaced)
    ensures Accounts(accepted + multiset{p}, d, q, late + multiset{p}, displaced)
    ensures |q + multiset{p}| == |q| + 1
  {
  }

  lemma StillValid(p: Packet, accepted: multiset<Packet>)
    requires p.Valid() && forall r | r in accepted :: r.Valid()
    ensures forall r | r in accepted + multiset{p} :: r.Valid()
  {
  }

  /** A run goes on with the expected packet and what it sets free. */
  lemma RunGrows(d: seq<Packet>, run: seq<Packet>, p: Packet, out: seq<Packet>, q: multiset<Packet>,
      q1: multiset<Packet>, e1: int)
    requires Consecutive(run) && EndsWith(d, run) && (run != [] ==> p.seqno == Next(run[|run| - 1].seqno))
    requires Drained(q, Next(p.seqno), out, q1, e1)
    ensures var r := run + ([p] + out);
      Consecutive(r) && EndsWith(d + ([p] + out), r) && e1 == Next(r[|r| - 1].seqno)
  {
    hide NotAfter, First, EndsWith, Next, Packet.Valid, Consecutive;
    var n := [p] + out;
    OneIsConsecutive(p);
    Joined(run, [p]);
    if out != [] {
      Joined(run + [p], out);
    } else {
      assert run + [p] + out == run + [p];
    }
    Regrouped(run, p, out);
    Extends(d, run, n);
  }

  lemma OneIsConsecutive(p: Packet)
    ensures Consecutive([p])
  {
  }

  lemma Regrouped(run: seq<Packet>, p: Packet, out: seq<Packet>)
    ensures run + [p] + out == run + ([p] + out)
    ensures var r := run + ([p] + out); r[|r| - 1] == if out == [] then p else out[|out| - 1]
  {
  }

  lemma Joined(a: seq<Packet>, b: seq<Packet>)
    requires Consecutive(a) && Consecutive(b) && b != [] && (a != [] ==> b[0].seqno == Next(a[|a| - 1].seqno))
    ensures Consecutive(a + b)
  {
    hide Next;
  }

  lemma Extends(d: seq<Packet>, run: seq<Packet>, n: seq<Packet>)
    requires EndsWith(d, run)
    ensures EndsWith(d + n, run + n)
  {
    var k := |d| - |run|;
    assert (d + n)[k..] == d[k..] + n;
  }

  // ---- What keeps the order ----

  /** What was delivered is in order and below the expected number, what is cached above it. */
  ghost predicate IsOrdered(e: int, q: multiset<Packet>, d: seq<Packet>)
  {
    && e >= 0 && StrictlyIncreasing(d) && (forall i | 0 <= i < |d| :: 0 <= d[i].seqno < e)
    && (forall r | r in q :: e < r.seqno < WRAP)
  }

  /** A packet numbered n waits. */
  ghost predicate Waits(q: multiset<Packet>, n: int)
  {
    exists r :: r in q && r.seqno == n
  }

  ghost predicate WaitsTwice(q: multiset<Packet>, n: int)
  {
    exists r, t :: Repeats(q, r, t) && r.seqno == n
  }

  /** All numbers after s up to n wait, so that s sets them free. */
  ghost predicate Reaches(q: multiset<Packet>, s: int, n: int)
  {
    s <= n && forall k | s < k <= n :: Waits(q, k)
  }

  /** Handing on number n leaves the expected number in order. */
  ghost predicate Harmless(q: multiset<Packet>, n: int)
  {
    n < WRAP - 1 && !WaitsTwice(q, n)
  }

  /** What a packet may not do: set free or flush the number 65535, or one that waits twice. Dropping or
      caching a packet does no harm. */
  ghost predicate KeepsOrder(p: Packet, e: int, q: multiset<Packet>)
  {
    if e == 0 || p.seqno == e then
      (forall r | r in q :: p.seqno < r.seqno) && forall n | Reaches(q, p.seqno, n) :: Harmless(q, n)
    else if Full(p, e, q) then forall n | Waits(q, n) :: Harmless(q, n)
    else true
  }

  /** A packet leaves the state ordered exactly under that condition. */
  lemma StaysOrdered(p: Packet, e: int, q: multiset<Packet>, d: seq<Packet>, out: seq<Packet>, q1: multiset<Packet>,
                     e1: int)
    requires IsOrdered(e, q, d) && p.Valid() && Handled(p, e, q, out, q1, e1)
    ensures IsOrdered(e1, q1, d + out) <==> KeepsOrder(p, e, q)
  {
    hide StrictlyIncreasing, Drained, Flushed, Reaches, Harmless, Next;
    if e == 0 || p.seqno == e {
      assert out == [p] + out[1..];
      ExpectedOrdered(p, e, q, d, out[1..], q1, e1);
    } else if Full(p, e, q) {
      FlushOrdered(p, e, q, d, out, e1);
    } else {
      assert d + out == d;
    }
  }

  // ---- Repetitions ----

  /** Later places of a sequence hold further packets. */
  lemma FurtherOn(a: seq<Packet>, i: nat, j: nat)
    requires i < j < |a|
    ensures a[i] in multiset(a) && a[j] in multiset(a) - multiset{a[i]}
  {
    assert a == a[..j] + a[j..];
    assert multiset(a) == multiset(a[..j]) + multiset(a[j..]);
    assert a[..j][i] == a[i] && a[j..][0] == a[j];
    assert a[i] in multiset(a[..j]) && a[j] in multiset(a[j..]);
  }

  lemma {:induction false} NotFurther(a: seq<Packet>, r: Packet, t: Packet)
    requires Repeats(multiset(a), r, t)
    ensures exists i, j :: 0 <= i < j < |a| && a[i].seqno == a[j].seqno
  {
    var n := |a| - 1;
    assert a == a[..n] + [a[n]];
    var init := multiset(a[..n]);
    assert multiset(a) == init + multiset{a[n]};
    if Repeats(init, r, t) {
      NotFurther(a[..n], r, t);
      var i, j :| 0 <= i < j < |a[..n]| && a[..n][i].seqno == a[..n][j].seqno;
      assert a[i].seqno == a[j].seqno;
    } else {
      var x := if r in init && r.seqno == a[n].seqno then r else t;
      assert x in init && x.seqno == a[n].seqno;
      var i :| 0 <= i < n && a[..n][i] == x;
      assert a[i].seqno == a[n].seqno;
    }
  }

  // ---- Draining keeps the order, or not ----

  /** From s + 1 on, what a drain takes counts up by one; it may end with 65535. */
  lemma {:induction false} CountsUp(rest: seq<Packet>, s: int, e1: int)
    requires 0 <= s < WRAP && Continues(rest, Next(s), e1) && forall i | 0 <= i < |rest| :: 0 < rest[i].seqno < WRAP
    ensures forall i | 0 <= i < |rest| :: rest[i].seqno == s + 1 + i
    ensures s + |rest| < WRAP && e1 == if s + |rest| == WRAP - 1 then 0 else s + |rest| + 1
  {
    if rest != [] {
      var n := |rest| - 1;
      var init := rest[..n];
      if n == 0 {
        assert rest[0].seqno == Next(s);
      } else {
        assert Continues(init, Next(s), Next(init[n - 1].seqno));
        CountsUp(init, s, Next(init[n - 1].seqno));
        assert rest[n].seqno == Next(rest[n - 1].seqno) && rest[n - 1] == init[n - 1];
        assert forall i | 0 <= i < n :: rest[i] == init[i];
      }
    }
  }

  lemma Taken(e: int, rest: seq<Packet>, q: multiset<Packet>, q1: multiset<Packet>)
    requires q == multiset(rest) + q1 && forall r | r in q :: e < r.seqno < WRAP
    ensures forall i | 0 <= i < |rest| :: e < rest[i].seqno < WRAP && rest[i] in q
  {
    forall i | 0 <= i < |rest|
      ensures rest[i] in q
    {
      assert rest[i] in multiset(rest);
    }
  }

  lemma ExpectedOrdered(p: Packet, e: int, q: multiset<Packet>, d: seq<Packet>, rest: seq<Packet>,
                        q1: multiset<Packet>, e1: int)
    requires IsOrdered(e, q, d) && p.Valid() && (e == 0 || p.seqno == e) && Drained(q, Next(p.seqno), rest, q1, e1)
    ensures IsOrdered(e1, q1, d + ([p] + rest)) <==> KeepsOrder(p, e, q)
  {
    hide Repeats, NotAfter, First, Continues, Waits, WaitsTwice;
    var s, k := p.seqno, |rest|;
    Taken(e, rest, q, q1);
    CountsUp(rest, s, e1);
    hide Next;
    FreedReached(s, rest, q, q1);
    var all := d + ([p] + rest);
    assert all[|d|] == p;
    if s + k == WRAP - 1 {
      assert !Harmless(q, WRAP - 1);
    } else {
      Extended(d, p, rest, e1);
      LeftAbove(s, rest, q, q1, e1);
    }
  }

  /** What was set free waited in a row. */
  lemma FreedReached(s: int, rest: seq<Packet>, q: multiset<Packet>, q1: multiset<Packet>)
    requires q == multiset(rest) + q1 && forall i | 0 <= i < |rest| :: rest[i].seqno == s + 1 + i
    ensures Reaches(q, s, s + |rest|)
  {
    forall n | s < n <= s + |rest|
      ensures Waits(q, n)
    {
      assert rest[n - s - 1] in multiset(rest);
      assert rest[n - s - 1] in q;
    }
  }

  lemma Extended(d: seq<Packet>, p: Packet, rest: seq<Packet>, e1: int)
    requires StrictlyIncreasing(d) && (forall i | 0 <= i < |d| :: 0 <= d[i].seqno < p.seqno) && p.seqno >= 0
    requires e1 == p.seqno + 1 + |rest| && forall i | 0 <= i < |rest| :: rest[i].seqno == p.seqno + 1 + i
    ensures var all := d + ([p] + rest);
      StrictlyIncreasing(all) && forall i | 0 <= i < |all| :: 0 <= all[i].seqno < e1
  {
    var n := [p] + rest;
    assert forall i | 0 <= i < |n| :: n[i].seqno == p.seqno + i;
  }

  /** Everything that a drain leaves is beyond the number now expected exactly if none of the numbers
      set free waited twice. */
  lemma LeftAbove(s: int, rest: seq<Packet>, q: multiset<Packet>, q1: multiset<Packet>, e1: int)
    requires q == multiset(rest) + q1 && e1 == s + 1 + |rest| < WRAP
    requires forall i | 0 <= i < |rest| :: rest[i].seqno == s + 1 + i
    requires NotAfter(rest, q1) && (q1 == multiset{} || exists f :: First(q1, f) && f.seqno != e1)
    ensures (forall r | r in q1 :: e1 < r.seqno)
            <==> (forall r | r in q :: s < r.seqno) && forall n | Reaches(q, s, n) :: Harmless(q, n)
  {
    hide Repeats, Waits, WaitsTwice, Harmless, Reaches, First, NotAfter;
    if forall r | r in q1 :: e1 < r.seqno {
      AllAbove(s, rest, q, q1);
      forall n | Reaches(q, s, n)
        ensures Harmless(q, n)
      {
        NothingBeyond(s, rest, q, q1, n);
      }
    }
    if (forall r | r in q :: s < r.seqno) && forall n | Reaches(q, s, n) :: Harmless(q, n) {
      FreedReached(s, rest, q, q1);
      LastOnce(s, rest, q, q1, e1);
    }
  }

  lemma AllAbove(s: int, rest: seq<Packet>, q: multiset<Packet>, q1: multiset<Packet>)
    requires q == multiset(rest) + q1 && (forall i | 0 <= i < |rest| :: rest[i].seqno == s + 1 + i)
    requires forall r | r in q1 :: s + 1 + |rest| < r.seqno
    ensures forall r | r in q :: s < r.seqno && (r in rest || r in q1)
  {
  }

  lemma NothingBeyond(s: int, rest: seq<Packet>, q: multiset<Packet>, q1: multiset<Packet>, n: int)
    requires q == multiset(rest) + q1 && (forall i | 0 <= i < |rest| :: rest[i].seqno == s + 1 + i)
    requires (forall r | r in q1 :: s + 1 + |rest| < r.seqno) && s + 1 + |rest| < WRAP && Reaches(q, s, n)
    ensures Harmless(q, n)
  {
    AllAbove(s, rest, q, q1);
    forall r | r in q
      ensures r.seqno != s + |rest| + 1
    {
    }
    assert !Waits(q, s + |rest| + 1);
    if WaitsTwice(q, n) {
      var r, t :| Repeats(q, r, t) && r.seqno == n;
      assert r !in q1 && t !in q1;
      assert Repeats(multiset(rest), r, t);
      NotFurther(rest, r, t);
    }
  }

  lemma LastOnce(s: int, rest: seq<Packet>, q: multiset<Packet>, q1: multiset<Packet>, e1: int)
    requires q == multiset(rest) + q1 && e1 == s + 1 + |rest| && forall i | 0 <= i < |rest| :: rest[i].seqno == s + 1 + i
    requires NotAfter(rest, q1) && (q1 == multiset{} || exists f :: First(q1, f) && f.seqno != e1)
    requires (forall r | r in q :: s < r.seqno) && Harmless(q, s + |rest|)
    ensures forall r | r in q1 :: e1 < r.seqno
  {
    forall r | r in q1
      ensures e1 < r.seqno
    {
      var f :| First(q1, f) && f.seqno != e1;
      assert f in q;
      if rest != [] {
        var x := rest[|rest| - 1];
        assert x.seqno <= f.seqno;
        assert x in multiset(rest);
        if x.seqno == f.seqno {
          assert Repeats(q, x, f);
        }
      }
    }
  }

  // ---- So does flushing ----

  lemma FlushOrdered(p: Packet, e: int, q: multiset<Packet>, d: seq<Packet>, out: seq<Packet>, e1: int)
    requires IsOrdered(e, q, d) && Flushed(q, out, e1)
    ensures IsOrdered(e1, multiset{}, d + out) <==> forall n | Waits(q, n) :: Harmless(q, n)
  {
    hide StrictlyIncreasing, Sorted, Waits, WaitsTwice, Repeats;
    var n := |out| - 1;
    assert q == multiset(out) + multiset{};
    Taken(e, out, q, multiset{});
    if forall n | Waits(q, n) :: Harmless(q, n) {
      assert Waits(q, out[n].seqno) by { IsWaiting(q, out[n]); }
      NoneTwice(q, out);
      Appended(d, e, out, e1);
    }
    if IsOrdered(e1, multiset{}, d + out) {
      assert (d + out)[|d| + n] == out[n];
      forall k | Waits(q, k)
        ensures Harmless(q, k)
      {
        FlushedOnce(d, out, q, k, e1);
      }
    }
  }

  lemma IsWaiting(q: multiset<Packet>, r: Packet)
    requires r in q
    ensures Waits(q, r.seqno)
  {
  }

  lemma NoneTwice(q: multiset<Packet>, out: seq<Packet>)
    requires q == multiset(out) && forall n | Waits(q, n) :: Harmless(q, n)
    ensures forall i, j | 0 <= i < j < |out| :: out[i].seqno != out[j].seqno
  {
    forall i, j | 0 <= i < j < |out|
      ensures out[i].seqno != out[j].seqno
    {
      FurtherOn(out, i, j);
      IsWaiting(q, out[i]);
      if out[i].seqno == out[j].seqno {
        assert Repeats(q, out[i], out[j]);
      }
    }
  }

  lemma Appended(d: seq<Packet>, e: int, out: seq<Packet>, e1: int)
    requires StrictlyIncreasing(d) && (forall i | 0 <= i < |d| :: 0 <= d[i].seqno < e) && e >= 0
    requires out != [] && Sorted(out) && (forall i | 0 <= i < |out| :: e < out[i].seqno < WRAP)
    requires (forall i, j | 0 <= i < j < |out| :: out[i].seqno != out[j].seqno)
    requires out[|out| - 1].seqno < WRAP - 1 && e1 == Next(out[|out| - 1].seqno)
    ensures StrictlyIncreasing(d + out) && (forall i | 0 <= i < |d + out| :: 0 <= (d + out)[i].seqno < e1) && e1 >= 0
  {
  }

  lemma FlushedOnce(d: seq<Packet>, out: seq<Packet>, q: multiset<Packet>, n: int, e1: int)
    requires q == multiset(out) && Sorted(out) && out != [] && e1 == Next(out[|out| - 1].seqno)
    requires StrictlyIncreasing(d + out) && (d + out)[|d| + |out| - 1].seqno < e1
    requires (forall r | r in q :: 0 <= r.seqno < WRAP) && Waits(q, n)
    ensures Harmless(q, n)
  {
    var r :| r in q && r.seqno == n;
    var i :| 0 <= i < |out| && out[i] == r;
    assert out[i].seqno <= out[|out| - 1].seqno;
    assert out[|out| - 1] in multiset(out);
    IncreasingPart(d, out);
    if WaitsTwice(q, n) {
      var r, t :| Repeats(q, r, t) && r.seqno == n;
      NotFurther(out, r, t);
    }
  }

  lemma IncreasingPart(d: seq<Packet>, out: seq<Packet>)
    requires StrictlyIncreasing(d + out)
    ensures StrictlyIncreasing(out)
  {
    forall i, j | 0 <= i < j < |out|
      ensures out[i].seqno < out[j].seqno
    {
      assert (d + out)[|d| + i] == out[i] && (d + out)[|d| + j] == out[j];
    }
  }

  // ---- Numbers that do not repeat ----

  /** No harm waits: no number twice, not 65535, and nothing before the first packet. */
  ghost predicate IsSteady(e: int, q: multiset<Packet>)
  {
    && (e == 0 ==> q == multiset{}) && Distinct(q) && forall r | r in q :: 0 <= r.seqno < WRAP - 1
  }

  /** No packet with this number waits, and it is not the last one before the wrap. */
  ghost predicate NewNumber(p: Packet, q: multiset<Packet>)
  {
    p.seqno < WRAP - 1 && forall r | r in q :: r.seqno != p.seqno
  }

  /** Then a new number keeps the order ... */
  lemma SteadyKeeps(p: Packet, e: int, q: multiset<Packet>, d: seq<Packet>)
    requires IsOrdered(e, q, d) && IsSteady(e, q) && NewNumber(p, q)
    ensures KeepsOrder(p, e, q)
  {
    hide Repeats;
    forall n | n < WRAP - 1
      ensures Harmless(q, n)
    {
    }
    forall n | Reaches(q, p.seqno, n)
      ensures n < WRAP - 1
    {
      assert n == p.seqno || Waits(q, n);
    }
  }

  /** ... and leaves no harm behind. */
  lemma StaysSteady(p: Packet, e: int, q: multiset<Packet>, out: seq<Packet>, q1: multiset<Packet>, e1: int)
    requires IsSteady(e, q) && NewNumber(p, q) && p.Valid() && Handled(p, e, q, out, q1, e1)
    ensures IsSteady(e1, q1)
  {
    hide Distinct, Repeats, Drained, Flushed, Next;
    if e == 0 || p.seqno == e {
      DrainedSteady(p, q, out[1..], q1, e1);
    } else if Full(p, e, q) {
      FlushedSteady(q, out, e1);
    } else if !Late(p, e) {
      CachedDistinct(p, q);
    }
  }

  lemma DrainedSteady(p: Packet, q: multiset<Packet>, rest: seq<Packet>, q1: multiset<Packet>, e1: int)
    requires Distinct(q) && (forall r | r in q :: 0 <= r.seqno < WRAP - 1) && 0 <= p.seqno < WRAP - 1
    requires Drained(q, Next(p.seqno), rest, q1, e1)
    ensures IsSteady(e1, q1)
  {
    hide Distinct, NotAfter, First, Consecutive;
    assert q == multiset(rest) + q1;
    LeftDistinct(multiset(rest), q1);
    if rest != [] {
      assert rest[|rest| - 1] in multiset(rest);
    }
  }

  lemma FlushedSteady(q: multiset<Packet>, out: seq<Packet>, e1: int)
    requires (forall r | r in q :: 0 <= r.seqno < WRAP - 1) && Flushed(q, out, e1)
    ensures IsSteady(e1, multiset{})
  {
    hide Sorted;
    assert out[|out| - 1] in multiset(out);
    NothingDistinct();
  }

  lemma NothingDistinct()
    ensures Distinct(multiset{})
  {
  }

  lemma CachedDistinct(p: Packet, q: multiset<Packet>)
    requires Distinct(q) && forall r | r in q :: r.seqno != p.seqno
    ensures Distinct(q + multiset{p})
  {
    forall r, t
      ensures !Repeats(q + multiset{p}, r, t)
    {
      assert !Repeats(q, r, t);
    }
  }

  lemma LeftDistinct(a: multiset<Packet>, b: multiset<Packet>)
    requires Distinct(a + b)
    ensures Distinct(b)
  {
    forall r, t
      ensures !Repeats(b, r, t)
    {
      assert !Repeats(a + b, r, t);
    }
  }

  lemma DrainsNothing(e: int, out: seq<Packet>, q1: multiset<Packet>, e1: int)
    requires Drained(multiset{}, e, out, q1, e1)
    ensures out == [] && q1 == multiset{} && e1 == e
  {
    assert |multiset(out) + q1| == 0;
    assert |multiset(out)| == |out|;
  }

  ghost predicate Late(p: Packet, e: int)
  {
    e != 0 && p.seqno < e
  }

  ghost predicate Full(p: Packet, e: int, q: multiset<Packet>)
  {
    e != 0 && p.seqno > e && |q| >= MAX_CACHED
  }

  /** A packet moves the state from e and q to e1 and q1, and `out` to the handler. */
  ghost predicate Handled(p: Packet, e: int, q: multiset<Packet>, out: seq<Packet>, q1: multiset<Packet>, e1: int)
  {
    if e == 0 || p.seqno == e then |out| > 0 && out[0] == p && Drained(q, Next(p.seqno), out[1..], q1, e1)
    else if p.seqno < e then out == [] && q1 == q && e1 == e
    else if |q| < MAX_CACHED then out == [] && q1 == q + multiset{p} && e1 == e
    else Flushed(q, out, e1) && q1 == multiset{}
  }

  // ---- Numbers that do ----

  /** Of two equal packets a drain takes one, and the other blocks it. */
  lemma DrainsOne(p: Packet, out: seq<Packet>, q1: multiset<Packet>, e1: int)
    requires Drained(multiset{p, p}, p.seqno, out, q1, e1) && p.Valid()
    ensures out == [p] && q1 == multiset{p} && e1 == Next(p.seqno)
  {
    hide Drained;
    TakenOfTwo(p, out, q1, e1);
    assert |multiset(out)| == |out|;
    assert |multiset(out) + q1| == 2;
    assert out != [];
    assert out == [p];
    assert q1 == multiset{p, p} - multiset{p};
  }

  lemma TakenOfTwo(p: Packet, out: seq<Packet>, q1: multiset<Packet>, e1: int)
    requires Drained(multiset{p, p}, p.seqno, out, q1, e1)
    ensures multiset{p, p} == multiset(out) + q1 && (forall i | 0 <= i < |out| :: out[i] == p)
    ensures q1 == multiset{} || e1 != p.seqno
    ensures e1 == if out == [] then p.seqno else Next(p.seqno)
    ensures |out| > 1 ==> Next(p.seqno) == p.seqno
  {
    hide NotAfter;
    AllEqual(p, out, q1);
    Second(out, p.seqno, e1);
  }

  lemma Second(out: seq<Packet>, e: int, e1: int)
    requires Continues(out, e, e1)
    ensures |out| > 1 ==> out[1].seqno == Next(out[0].seqno)
  {
    if |out| > 1 {
      assert out[1].seqno == Next(out[1 - 1].seqno);
    }
  }

  lemma AllEqual(p: Packet, out: seq<Packet>, q1: multiset<Packet>)
    requires multiset{p, p} == multiset(out) + q1
    ensures (forall i | 0 <= i < |out| :: out[i] == p) && forall r | r in q1 :: r == p
  {
    forall i | 0 <= i < |out|
      ensures out[i] == p
    {
      assert out[i] in multiset(out);
      assert out[i] in multiset(out) + q1;
    }
    forall r | r in q1
      ensures r == p
    {
      assert r in multiset(out) + q1;
    }
  }

  /** 65535, 1, 0: after the last number 1 counts as the first packet, and 0 comes too late. */
  method WrapLosesOrder(data: seq<bv8>) returns (s: AudioStream)
    ensures fresh(s) && s.Valid() && s.delivered == [Packet(WRAP - 1, data), Packet(1, data)]
    ensures s.late == multiset{Packet(0, data)} && !StrictlyIncreasing(s.delivered)
  {
    hide AudioStream.Valid, AudioStream.Ordered, AudioStream.Steady, NewNumber, Drained, Flushed;
    hide StrictlyIncreasing, KeepsOrder;
    s := new AudioStream();
    var last := s.DataHandler(Datagram(true, Packet(WRAP - 1, data)));
    DrainsNothing(0, last[1..], s.queue, s.expected);
    var first := s.DataHandler(Datagram(true, Packet(1, data)));
    DrainsNothing(2, first[1..], s.queue, s.expected);
    var zero := s.DataHandler(Datagram(true, Packet(0, data)));
    Decreases(s.delivered);
  }

  lemma Decreases(d: seq<Packet>)
    requires |d| == 2 && d[0].seqno > d[1].seqno
    ensures !StrictlyIncreasing(d)
  {
  }

  /** 5, 7, 7, 6: the second 7 is never the expected number again, and blocks the queue. */
  method RepetitionBlocks(data: seq<bv8>) returns (s: AudioStream)
    ensures fresh(s) && s.Valid() && s.delivered == [Packet(5, data), Packet(6, data), Packet(7, data)]
    ensures s.expected == 8 && s.queue == multiset{Packet(7, data)} && !s.Ordered()
  {
    hide AudioStream.Valid, AudioStream.Ordered, AudioStream.Steady, NewNumber, Drained, Flushed, KeepsOrder;
    s := new AudioStream();
    var five := s.DataHandler(Datagram(true, Packet(5, data)));
    DrainsNothing(6, five[1..], s.queue, s.expected);
    var seven := s.DataHandler(Datagram(true, Packet(7, data)));
    var again := s.DataHandler(Datagram(true, Packet(7, data)));
    assert s.queue == multiset{Packet(7, data), Packet(7, data)};
    var six := s.DataHandler(Datagram(true, Packet(6, data)));
    DrainsOne(Packet(7, data), six[1..], s.queue, s.expected);
    s.NotAbove(Packet(7, data));
  }
}
