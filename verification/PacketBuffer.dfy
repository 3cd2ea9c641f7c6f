/**
 The bounded packet buffer: a deque whose byte count is kept beside it. Every
 operation runs under the lock, so an interleaving is a sequence of events.
 */
module PacketBuffer {

  type Packet = seq<bv8>

  function Total(ps: seq<Packet>): nat {
    if ps == [] then 0 else |ps[0]| + Total(ps[1..])
  }

  lemma {:induction false} TotalConcat(a: seq<Packet>, b: seq<Packet>)
    ensures Total(a + b) == Total(a) + Total(b)
  {
    if a == [] {
      assert a + b == b;
    } else {
      assert (a + b)[1..] == a[1..] + b;
      TotalConcat(a[1..], b);
    }
  }

  /**
   The buffer with the history of a run: all packets accepted, all delivered and
   not returned since, and the highest limit there ever was. A packet given back
   that is not the one delivered last is accepted in front of those stored.
   */
  datatype State = State(buffer: seq<Packet>, size: int, limit: nat, accepted: seq<Packet>, delivered: seq<Packet>,
    peak: nat)

  datatype Event = Push(p: Packet) | Pop | RollBack(p: Packet) | SetLimit(limit: nat)

  function Start(limit: nat): State {
    State([], 0, limit, [], [], limit)
  }

  predicate IsReturn(s: State, p: Packet) {
    s.delivered != [] && p == s.delivered[|s.delivered| - 1]
  }

  function Apply(s: State, e: Event): State {
    match e
    case Push(p) =>
      if s.size + |p| > s.limit then s
      else s.(buffer := s.buffer + [p], size := s.size + |p|, accepted := s.accepted + [p])
    case Pop =>
      if s.buffer == [] then s
      else s.(buffer := s.buffer[1..], size := s.size - |s.buffer[0]|, delivered := s.delivered + [s.buffer[0]])
    case RollBack(p) =>
      if s.size + |p| > s.limit then s
      else
        var s' := s.(buffer := [p] + s.buffer, size := s.size + |p|);
        if IsReturn(s, p) then s'.(delivered := s.delivered[..|s.delivered| - 1])
        else s'.(accepted := s.delivered + [p] + s.buffer)
    case SetLimit(limit) =>
      s.(limit := limit, peak := if limit > s.peak then limit else s.peak)
  }

  ghost predicate Conserved(s: State) {
    && s.size == Total(s.buffer)
    && s.accepted == s.delivered + s.buffer
    && s.size <= s.peak && s.limit <= s.peak
  }

  lemma ApplyConserves(s: State, e: Event)
    requires Conserved(s)
    ensures Conserved(Apply(s, e))
  {
    match e
    case Push(p) =>
      TotalConcat(s.buffer, [p]);
      assert s.delivered + s.buffer + [p] == s.delivered + (s.buffer + [p]);
      assert Total([p]) == |p| + Total([]);
    case Pop =>
      if s.buffer != [] {
        assert s.delivered + [s.buffer[0]] + s.buffer[1..] == s.delivered + s.buffer;
      }
    case RollBack(p) =>
      assert ([p] + s.buffer)[1..] == s.buffer;
      assert s.delivered + [p] + s.buffer == s.delivered + ([p] + s.buffer);
      if IsReturn(s, p) {
        assert s.delivered[..|s.delivered| - 1] + ([p] + s.buffer) == s.delivered + s.buffer;
      }
    case SetLimit(_) =>
  }

  ghost predicate IsRun(limit: nat, states: seq<State>, events: seq<Event>) {
    && |states| == |events| + 1 && states[0] == Start(limit)
    && forall i :: 0 <= i < |events| ==> states[i + 1] == Apply(states[i], events[i])
  }

  /**
   In every interleaving the byte count is the stored size, the delivered and
   stored packets are the accepted ones in order, and the stored size never
   exceeds the highest limit.
   */
  lemma {:induction false} RunsConserve(limit: nat, states: seq<State>, events: seq<Event>, n: nat)
    requires IsRun(limit, states, events) && n < |states|
    ensures Conserved(states[n])
  {
    if n == 0 {
    } else {
      RunsConserve(limit, states, events, n - 1);
      assert states[n] == Apply(states[n - 1], events[n - 1]);
      ApplyConserves(states[n - 1], events[n - 1]);
    }
  }

  /**
   A packet returned at once goes back exactly where it was, if and only if the
   limit still admits what was stored.
   */
  lemma RollBackUndoesPop(s: State)
    requires Conserved(s) && s.buffer != []
    ensures Apply(Apply(s, Pop), RollBack(s.buffer[0])) == s <==> s.size <= s.limit
  {
    var p := s.buffer[0];
    assert (s.delivered + [p])[..|s.delivered|] == s.delivered;
    assert [p] + s.buffer[1..] == s.buffer;
    assert |s.buffer[1..]| != |s.buffer|;
  }

  class Buffer {
    var buffer: seq<Packet>
    var limit: nat
    var size: int
    ghost var accepted: seq<Packet>
    ghost var delivered: seq<Packet>
    ghost var peak: nat

    ghost function History(): State
      reads this
    {
      State(buffer, size, limit, accepted, delivered, peak)
    }

    constructor ()
      ensures History() == Start(1024 * 1024) && Conserved(History())
    {
      buffer, limit, size := [], 1024 * 1024, 0;
      accepted, delivered, peak := [], [], 1024 * 1024;
    }

    method Push(data: Packet) returns (ok: bool)
      requires Conserved(History())
      modifies this
      ensures History() == Apply(old(History()), Event.Push(data)) && Conserved(History())
      ensures ok == (old(size) + |data| <= limit) && limit == old(limit)
      ensures buffer == if ok then old(buffer) + [data] else old(buffer)
    {
      ApplyConserves(History(), Event.Push(data));
      if size + |data| > limit {
        return false;
      }
      buffer := buffer + [data];
      size := size + |data|;
      accepted := accepted + [data];
      return true;
    }

    /** None leaves the caller's packet untouched. */
    method Pop() returns (ok: bool, v: Packet)
      requires Conserved(History())
      modifies this
      ensures History() == Apply(old(History()), Event.Pop) && Conserved(History())
      ensures ok == (old(buffer) != []) && limit == old(limit)
      ensures if ok then old(buffer) == [v] + buffer else buffer == []
    {
      ApplyConserves(History(), Event.Pop);
      v := [];
      if |buffer| > 0 {
        v := buffer[0];
        size := size - |v|;
        buffer := buffer[1..];
        delivered := delivered + [v];
        return true, v;
      }
      return false, v;
    }

    /** Meant for the packet popped last; any other is put in front as well. */
    method RollBack(v: Packet) returns (ok: bool)
      requires Conserved(History())
      modifies this
      ensures History() == Apply(old(History()), Event.RollBack(v)) && Conserved(History())
      ensures ok == (old(size) + |v| <= limit) && limit == old(limit)
      ensures buffer == if ok then [v] + old(buffer) else old(buffer)
    {
      ApplyConserves(History(), Event.RollBack(v));
      if size + |v| > limit {
        return false;
      }
      if IsReturn(History(), v) {
        delivered := delivered[..|delivered| - 1];
      } else {
        accepted := delivered + [v] + buffer;
      }
      buffer := [v] + buffer;
      size := size + |v|;
      return true;
    }

    method SetLimit(limit: nat)
      requires Conserved(History())
      modifies this
      ensures History() == Apply(old(History()), Event.SetLimit(limit)) && Conserved(History())
      ensures this.limit == limit && buffer == old(buffer)
    {
      this.limit := limit;
      peak := if limit > peak then limit else peak;
    }
  }
}
