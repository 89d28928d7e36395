/** The viewer's access-unit assembler: depacketized chunks grouped by RTP timestamp and
    marker bit (RFC 6184, section 5.1). */
module AccessUnits {
  import opened Bytes

  /** An RTP packet with what the depacketizer makes of its payload: an error, or a possibly
      empty run of Annex B bytes. */
  datatype Packet = Packet(chunk: Result<seq<byte>>, timestamp: nat, marker: bool)

  datatype AccessUnit = AccessUnit(annexB: seq<byte>, timestamp: nat)

  datatype Pending = Pending(annexB: seq<byte>, timestamp: Option<nat>)

  const EMPTY: Pending := Pending([], None)

  /** One packet: the new pending state and the reply. */
  function Push(p: Pending, packet: Packet): (Pending, Result<Option<AccessUnit>>) {
    match packet.chunk
    case Err => (p, Err)
    case Ok(chunk) =>
      if chunk == [] then (p, Ok(None))
      else if p.annexB != [] && p.timestamp != Some(packet.timestamp) then
        var ts := if p.timestamp.Some? then p.timestamp.value else packet.timestamp;
        (Pending(chunk, Some(packet.timestamp)), Ok(Some(AccessUnit(p.annexB, ts))))
      else if packet.marker then
        (EMPTY, Ok(Some(AccessUnit(p.annexB + chunk, packet.timestamp))))
      else
        (Pending(p.annexB + chunk, Some(packet.timestamp)), Ok(None))
  }

  class H264AccessUnitAssembler {
    var pendingAnnexB: seq<byte>
    var pendingTimestamp: Option<nat>

    constructor ()
      ensures State() == EMPTY
    {
      pendingAnnexB, pendingTimestamp := [], None;
    }

    function State(): Pending
      reads this
    {
      Pending(pendingAnnexB, pendingTimestamp)
    }

    method PushRtp(packet: Packet) returns (r: Result<Option<AccessUnit>>)
      modifies this
      ensures (State(), r) == Push(old(State()), packet)
      ensures r == Err <==> packet.chunk == Err
      ensures r == Err ==> State() == old(State())
    {
      if packet.chunk.Err? {
        return Err;
      }
      var annexB := packet.chunk.value;
      if annexB == [] {
        return Ok(None);
      }
      if pendingAnnexB == [] {
        pendingTimestamp := Some(packet.timestamp);
      } else if pendingTimestamp != Some(packet.timestamp) {
        var timestamp := if pendingTimestamp.Some? then pendingTimestamp.value else packet.timestamp;
        var finished := pendingAnnexB;
        pendingAnnexB := [];
        pendingTimestamp := Some(packet.timestamp);
        pendingAnnexB := pendingAnnexB + annexB;
        assert pendingAnnexB == annexB;
        return Ok(Some(AccessUnit(finished, timestamp)));
      }
      pendingAnnexB := pendingAnnexB + annexB;
      if packet.marker {
        var timestamp := if pendingTimestamp.Some? then pendingTimestamp.value else packet.timestamp;
        var unit := pendingAnnexB;
        pendingTimestamp, pendingAnnexB := None, [];
        return Ok(Some(AccessUnit(unit, timestamp)));
      }
      return Ok(None);
    }
  }

  // ---------- Whole runs ----------

  datatype Trace = Trace(units: seq<AccessUnit>, pending: Pending)

  function Emitted(r: Result<Option<AccessUnit>>): seq<AccessUnit> {
    if r.Ok? && r.value.Some? then [r.value.value] else []
  }

  function Run(p: Pending, packets: seq<Packet>): Trace
    decreases packets
  {
    if packets == [] then Trace([], p)
    else
      var (p', r) := Push(p, packets[0]);
      var rest := Run(p', packets[1..]);
      Trace(Emitted(r) + rest.units, rest.pending)
  }

  lemma {:induction false} RunAppend(p: Pending, xs: seq<Packet>, ys: seq<Packet>)
    ensures var first := Run(p, xs);
      var second := Run(first.pending, ys);
      Run(p, xs + ys) == Trace(first.units + second.units, second.pending)
    decreases xs
  {
    if xs == [] {
      assert xs + ys == ys;
      assert [] + Run(p, ys).units == Run(p, ys).units;
    } else {
      assert (xs + ys)[1..] == xs[1..] + ys;
      RunAppend(Push(p, xs[0]).0, xs[1..], ys);
    }
  }

  /** Packets that carry bytes; the others change nothing and produce nothing. */
  predicate Carries(packet: Packet) {
    packet.chunk.Ok? && packet.chunk.value != []
  }

  predicate AllCarry(packets: seq<Packet>) {
    forall i | 0 <= i < |packets| :: Carries(packets[i])
  }

  function Carrying(packets: seq<Packet>): (r: seq<Packet>)
    ensures AllCarry(r)
  {
    if packets == [] then []
    else (if Carries(packets[0]) then [packets[0]] else []) + Carrying(packets[1..])
  }

  lemma {:induction false} OnlyCarryingMatters(p: Pending, packets: seq<Packet>)
    ensures Run(p, packets) == Run(p, Carrying(packets))
    decreases packets
  {
    if packets != [] {
      OnlyCarryingMatters(Push(p, packets[0]).0, packets[1..]);
      if !Carries(packets[0]) {
        assert Carrying(packets) == Carrying(packets[1..]);
      }
    }
  }

  ghost predicate Coherent(p: Pending) {
    p.annexB == [] <==> p.timestamp == None
  }

  /** Over any run, pending is empty exactly when no timestamp is held. */
  lemma {:induction false} PendingCoherent(p: Pending, packets: seq<Packet>)
    requires Coherent(p)
    ensures Coherent(Run(p, packets).pending)
    decreases packets
  {
    if packets != [] {
      PendingCoherent(Push(p, packets[0]).0, packets[1..]);
    }
  }

  // ---------- The outputs group the chunks ----------

  function Chunks(packets: seq<Packet>): seq<byte>
    requires AllCarry(packets)
  {
    if packets == [] then []
    else
      assert Carries(packets[0]);
      packets[0].chunk.value + Chunks(packets[1..])
  }

  lemma {:induction false} ChunksSnoc(packets: seq<Packet>, k: Packet)
    requires AllCarry(packets)
    requires Carries(k)
    ensures Chunks(packets + [k]) == Chunks(packets) + k.chunk.value
  {
    var all := packets + [k];
    if packets == [] {
      assert all[1..] == [];
    } else {
      assert all[1..] == packets[1..] + [k];
      ChunksSnoc(packets[1..], k);
    }
  }

  /** A non-empty run of carrying packets with one timestamp. */
  predicate Group(packets: seq<Packet>, ts: nat) {
    packets != [] && AllCarry(packets) && forall i | 0 <= i < |packets| :: packets[i].timestamp == ts
  }

  /** `open` is the group the pending state stands for. */
  ghost predicate Holds(p: Pending, open: seq<Packet>) {
    if open == [] then p == EMPTY
    else Group(open, open[0].timestamp) && p == Pending(Chunks(open), Some(open[0].timestamp))
  }

  /** The cut after a group has a reason: its last packet is marked, or the next packet has
      another timestamp. */
  predicate CutHere(group: seq<Packet>, next: seq<Packet>) {
    group != [] &&
    (group[|group| - 1].marker || (next != [] && next[0].timestamp != group[0].timestamp))
  }

  /** Each unit is the concatenation of one group and carries its timestamp. */
  ghost predicate UnitsOf(units: seq<AccessUnit>, groups: seq<seq<Packet>>) {
    |units| == |groups| &&
    forall i | 0 <= i < |units| ::
      Group(groups[i], units[i].timestamp) && units[i].annexB == Chunks(groups[i])
  }

  ghost predicate CutsJustified(groups: seq<seq<Packet>>, last: seq<Packet>) {
    forall i | 0 <= i < |groups| :: CutHere(groups[i], Flatten(groups[i + 1..]) + last)
  }

  /** How packets divide: into the groups behind the emitted units, then the open group. */
  ghost predicate Divides(p: Pending, open: seq<Packet>, packets: seq<Packet>,
                          groups: seq<seq<Packet>>, last: seq<Packet>) {
    && Flatten(groups) + last == open + packets
    && UnitsOf(Run(p, packets).units, groups)
    && Holds(Run(p, packets).pending, last)
    && CutsJustified(groups, last)
  }

  /** Over any run, the carrying packets fall in order into the emitted units and the open
      group: nothing is lost, duplicated, reordered, or mixed across timestamps. */
  lemma {:induction false} AssemblyIsGrouping(p: Pending, open: seq<Packet>, packets: seq<Packet>)
    returns (groups: seq<seq<Packet>>, last: seq<Packet>)
    requires Holds(p, open)
    requires AllCarry(packets)
    ensures Divides(p, open, packets, groups, last)
    decreases packets
  {
    if packets == [] {
      groups, last := [], open;
      assert open + packets == open;
    } else {
      hide Divides;
      var k, tail := packets[0], packets[1..];
      var p' := Push(p, k).0;
      PushOpen(p, open, k);
      if open != [] && open[0].timestamp != k.timestamp {
        groups, last := AssemblyIsGrouping(p', [k], tail);
        ConsUnit(p, open, packets, open, [k], groups, last);
        groups := [open] + groups;
      } else if k.marker {
        groups, last := AssemblyIsGrouping(p', [], tail);
        ConsUnit(p, open, packets, open + [k], [], groups, last);
        groups := [open + [k]] + groups;
      } else {
        groups, last := AssemblyIsGrouping(p', open + [k], tail);
        KeepOpen(p, open, packets, groups, last);
      }
    }
  }

  /** What one carrying packet does to the open group. */
  lemma {:induction false} PushOpen(p: Pending, open: seq<Packet>, k: Packet)
    requires Holds(p, open) && Carries(k)
    ensures var (p', r) := Push(p, k);
      if open != [] && open[0].timestamp != k.timestamp then
        Holds(p', [k]) && Emitted(r) == [AccessUnit(Chunks(open), open[0].timestamp)]
      else
        && Group(open + [k], k.timestamp)
        && if k.marker then Holds(p', []) && Emitted(r) == [AccessUnit(Chunks(open + [k]), k.timestamp)]
           else Holds(p', open + [k]) && Emitted(r) == []
  {
    assert [k][1..] == [];
    assert k.chunk.value + [] == k.chunk.value;
    ChunksSnoc(open, k);
    assert open == [] ==> Chunks(open) + k.chunk.value == k.chunk.value;
    assert (open + [k])[0] == if open == [] then k else open[0];
  }

  lemma {:induction false} KeepOpen(p: Pending, open: seq<Packet>, packets: seq<Packet>,
                                    groups: seq<seq<Packet>>, last: seq<Packet>)
    requires packets != [] && Emitted(Push(p, packets[0]).1) == []
    requires Divides(Push(p, packets[0]).0, open + [packets[0]], packets[1..], groups, last)
    ensures Divides(p, open, packets, groups, last)
  {
    Associate(open, [packets[0]], packets[1..]);
    assert [packets[0]] + packets[1..] == packets;
    var rest := Run(Push(p, packets[0]).0, packets[1..]);
    assert [] + rest.units == rest.units;
  }

  /** A cut after `group` leaves `open'` in front of the remaining packets. */
  lemma {:induction false} ConsUnit(p: Pending, open: seq<Packet>, packets: seq<Packet>, group: seq<Packet>,
                                    open': seq<Packet>, groups: seq<seq<Packet>>, last: seq<Packet>)
    requires packets != [] && group + open' == open + [packets[0]]
    requires group != [] && Group(group, group[0].timestamp) && CutHere(group, open' + packets[1..])
    requires Emitted(Push(p, packets[0]).1) == [AccessUnit(Chunks(group), group[0].timestamp)]
    requires Divides(Push(p, packets[0]).0, open', packets[1..], groups, last)
    ensures Divides(p, open, packets, [group] + groups, last)
  {
    var tail := packets[1..];
    ConsGroup(group, groups, last, open' + tail);
    Associate(group, open', tail);
    Associate(open, [packets[0]], tail);
    assert [packets[0]] + tail == packets;
    var rest := Run(Push(p, packets[0]).0, tail);
    var units, all := Run(p, packets).units, [group] + groups;
    assert units == [AccessUnit(Chunks(group), group[0].timestamp)] + rest.units;
    assert forall i | 0 < i < |units| :: units[i] == rest.units[i - 1] && all[i] == groups[i - 1];
  }

  lemma {:induction false} ConsGroup(g: seq<Packet>, groups: seq<seq<Packet>>, last: seq<Packet>, rest: seq<Packet>)
    requires Flatten(groups) + last == rest && CutsJustified(groups, last) && CutHere(g, rest)
    ensures Flatten([g] + groups) + last == g + rest
    ensures CutsJustified([g] + groups, last)
  {
    var all := [g] + groups;
    assert all[1..] == groups;
    Associate(g, Flatten(groups), last);
    forall i | 0 <= i < |all|
      ensures CutHere(all[i], Flatten(all[i + 1..]) + last)
    {
      if i > 0 {
        assert all[i + 1..] == groups[i - 1 + 1..];
      }
    }
  }

  // ---------- A well-marked stream comes out unit by unit ----------

  /** The packets of one sent unit: one timestamp, the marker on the last carrying packet and
      on no other. */
  predicate WellMarked(unit: seq<Packet>) {
    unit != [] && Group(unit, unit[0].timestamp)
    && forall i | 0 <= i < |unit| :: unit[i].marker <==> i == |unit| - 1
  }

  function Sent(unit: seq<Packet>): AccessUnit
    requires WellMarked(unit)
  {
    AccessUnit(Chunks(unit), unit[0].timestamp)
  }

  /** The packets of a unit before its last one only accumulate. */
  lemma {:induction false} Accumulates(p: Pending, packets: seq<Packet>, ts: nat)
    requires Coherent(p) && (p.annexB == [] || p.timestamp == Some(ts))
    requires packets == [] || Group(packets, ts)
    requires forall i | 0 <= i < |packets| :: !packets[i].marker
    ensures Run(p, packets) ==
            Trace([], if packets == [] then p else Pending(p.annexB + Chunks(packets), Some(ts)))
    decreases packets
  {
    if packets != [] {
      var k, tail := packets[0], packets[1..];
      Accumulates(Push(p, k).0, tail, ts);
      Associate(p.annexB, k.chunk.value, Chunks(tail));
    }
  }

  /** From an empty state (or one holding earlier packets of the same unit) the last packet of
      a unit, and no packet before it, delivers the unit and leaves nothing behind. */
  lemma {:induction false} DeliveredAtOnce(p: Pending, unit: seq<Packet>)
    requires WellMarked(unit)
    requires Coherent(p) && (p.annexB == [] || p.timestamp == Some(unit[0].timestamp))
    ensures forall k | 0 <= k < |unit| :: Run(p, unit[..k]).units == []
    ensures Run(p, unit) == Trace([AccessUnit(p.annexB + Chunks(unit), unit[0].timestamp)], EMPTY)
  {
    var ts := unit[0].timestamp;
    forall k | 0 <= k < |unit|
      ensures Run(p, unit[..k]).units == []
    {
      Accumulates(p, unit[..k], ts);
    }
    var n := |unit| - 1;
    var front, last := unit[..n], unit[n];
    Accumulates(p, front, ts);
    assert unit == front + [last];
    ChunksSnoc(front, last);
    Associate(p.annexB, Chunks(front), last.chunk.value);
    assert n == 0 ==> p.annexB + Chunks(front) == p.annexB;
    RunAppend(p, front, [last]);
    RunOne(Run(p, front).pending, last);
    assert [] + Emitted(Push(Run(p, front).pending, last).1) == Emitted(Push(Run(p, front).pending, last).1);
  }

  lemma {:induction false} RunOne(p: Pending, k: Packet)
    ensures Run(p, [k]) == Trace(Emitted(Push(p, k).1), Push(p, k).0)
  {
    assert [k][1..] == [];
  }

  function AllSent(units: seq<seq<Packet>>): seq<AccessUnit>
    requires forall i | 0 <= i < |units| :: WellMarked(units[i])
  {
    if units == [] then [] else [Sent(units[0])] + AllSent(units[1..])
  }

  /** A stream of well-marked units, with packets that carry nothing anywhere in between, comes
      out as exactly the sent units; it holds for every prefix of units, so none is late. */
  lemma {:induction false} StreamDelivered(units: seq<seq<Packet>>, packets: seq<Packet>)
    requires forall i | 0 <= i < |units| :: WellMarked(units[i])
    requires Carrying(packets) == Flatten(units)
    ensures Run(EMPTY, packets) == Trace(AllSent(units), EMPTY)
  {
    OnlyCarryingMatters(EMPTY, packets);
    UnitsDelivered(units);
  }

  lemma {:induction false} UnitsDelivered(units: seq<seq<Packet>>)
    requires forall i | 0 <= i < |units| :: WellMarked(units[i])
    ensures Run(EMPTY, Flatten(units)) == Trace(AllSent(units), EMPTY)
  {
    if units != [] {
      DeliveredAtOnce(EMPTY, units[0]);
      assert [] + Chunks(units[0]) == Chunks(units[0]);
      RunAppend(EMPTY, units[0], Flatten(units[1..]));
      UnitsDelivered(units[1..]);
    }
  }

  // ---------- What one lost marker does ----------

  /** A unit that arrives while another timestamp is pending flushes it; the assembler is empty
      again afterwards, with the unit delivered, exactly when the unit has a second packet. */
  lemma {:induction false} RecoversExactlyWhen(p: Pending, unit: seq<Packet>)
    requires WellMarked(unit)
    requires Coherent(p) && p.annexB != [] && p.timestamp != Some(unit[0].timestamp)
    ensures var flushed := AccessUnit(p.annexB, p.timestamp.value);
      Run(p, unit) ==
      if |unit| > 1 then Trace([flushed, Sent(unit)], EMPTY)
      else Trace([flushed], Pending(Chunks(unit), Some(unit[0].timestamp)))
    ensures Run(p, unit).pending == EMPTY <==> |unit| > 1
  {
    var k, tail := unit[0], unit[1..];
    var p' := Push(p, k).0;
    assert Chunks(unit) == k.chunk.value + Chunks(tail);
    if tail == [] {
      assert unit == [k];
      assert k.chunk.value + [] == k.chunk.value;
      RunOne(p, k);
    } else {
      assert WellMarked(tail);
      DeliveredAtOnce(p', tail);
    }
  }

  /** Single-packet units never recover: each one only flushes its predecessor and has its own
      marker ignored, so the stream stays one unit late for as long as it lasts. */
  lemma {:induction false} SinglePacketUnitsStayLate(p: Pending, units: seq<seq<Packet>>)
    requires forall i | 0 <= i < |units| :: WellMarked(units[i]) && |units[i]| == 1
    requires forall i | 0 < i < |units| :: units[i][0].timestamp != units[i - 1][0].timestamp
    requires units != [] && Coherent(p) && p.annexB != [] && p.timestamp != Some(units[0][0].timestamp)
    ensures var n := |units| - 1;
      Run(p, Flatten(units)) ==
      Trace([AccessUnit(p.annexB, p.timestamp.value)] + AllSent(units[..n]),
            Pending(Sent(units[n]).annexB, Some(units[n][0].timestamp)))
    decreases units
  {
    var n := |units| - 1;
    RecoversExactlyWhen(p, units[0]);
    var p' := Run(p, units[0]).pending;
    RunAppend(p, units[0], Flatten(units[1..]));
    if n > 0 {
      SinglePacketUnitsStayLate(p', units[1..]);
      assert units[..n][1..] == units[1..][..n - 1];
      assert units[1..][n - 1] == units[n];
    } else {
      assert units[1..] == [];
    }
  }
}
