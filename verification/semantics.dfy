/** What the generated filter is meant to decide, stated on the packet octets directly:
    where the first question's name starts, which octets a pattern step accepts, and the
    value the filter returns. */
module Semantics {
  import opened Bits
  import opened Labels
  import opened Merge
  import opened Bpf
  import opened Emit

  /** The command-line switches that change the listing: -n, -i, -o and -6. */
  datatype Options = Options(negate: bool, ignoreCase: bool, l3Offset: int, inet6: bool)

  /** The value returned for a packet whose name matches some pattern, and for one that matches none. */
  function AcceptCode(o: Options): int
  {
    if o.negate then 0 else 1
  }

  function RejectCode(o: Options): int
  {
    if o.negate then 1 else 0
  }

  /** Packet octet p stands where the pattern has w: a length octet must be equal, '?' takes
      any octet, another character must be equal, or, when case is ignored, may differ from it
      in bit 0x20 alone. */
  predicate Agrees(w: WireByte, ignoreCase: bool, p: byte)
  {
    if !w.isChar then p == w.value
    else if w.value == QUESTION then true
    else if ignoreCase then p == w.value || p == ToggleCaseBit(w.value)
    else p == w.value
  }

  /** The result of comparing a pattern with the packet: the packet ends before a compared
      octet, or it matches, or it does not. */
  datatype Verdict = Match | NoMatch | OutOfBounds

  /** Compares the octets of the run from off on with the packet at x + off, in the chunks a
      comparison loads at once: a chunk that runs past the end of the packet ends the run of
      the filter, a chunk with an octet that does not agree makes the pattern fail. */
  function RunFrom(run: seq<WireByte>, ignoreCase: bool, pkt: seq<byte>, x: nat, off: nat): Verdict
    decreases |run| - off
  {
    if off >= |run| then Match
    else
      var w := Width(|run| - off);
      match ChunkMatch(run, ignoreCase, pkt, x, off, w)
      case Match => RunFrom(run, ignoreCase, pkt, x, off + w)
      case v => v
  }

  /** Compares the octets [off, off + w) of the run with the packet at x + off: out of bounds
      when they run past the packet, a match when every octet agrees. */
  function ChunkMatch(run: seq<WireByte>, ignoreCase: bool, pkt: seq<byte>, x: nat, off: nat, w: nat): Verdict
    requires off + w <= |run|
  {
    if x + off + w > |pkt| then OutOfBounds
    else if forall i :: off <= i < off + w ==> Agrees(run[i], ignoreCase, pkt[x + i]) then Match
    else NoMatch
  }

  /** Matches the steps of a pattern from cursor x on: a run is compared and passed over, a
      wildcard passes over one label, whose length octet is at the cursor. */
  function Attempt(steps: seq<Step>, ignoreCase: bool, pkt: seq<byte>, x: nat): Verdict
    decreases |steps|
  {
    if steps == [] then Match
    else match steps[0]
      case Skip =>
        if x >= |pkt| then OutOfBounds
        else Attempt(steps[1..], ignoreCase, pkt, x + pkt[x] + 1)
      case Run(run) =>
        match RunFrom(run, ignoreCase, pkt, x, 0)
        case Match => Attempt(steps[1..], ignoreCase, pkt, x + |run|)
        case v => v
  }

  /** The offset of the first octet of the question name: past the IPv4 header, whose length
      in 32-bit words is the low nibble of its first octet, or past a 40-octet IPv6 header,
      then past 8 octets of UDP header and 12 of DNS header; computed in 32 bits. None when
      the IPv4 header's first octet is not in the packet. */
  function StartOffset(o: Options, pkt: seq<byte>): Option<nat>
  {
    if o.inet6 then Some((o.l3Offset + 40 + 8 + 12) % WORD)
    else if 0 <= o.l3Offset < |pkt| then Some((o.l3Offset + 8 + 12 + 4 * (pkt[o.l3Offset] % 16)) % WORD)
    else None
  }

  /** Tries the patterns from the i-th on, in order, at the start of the name. */
  function TryFrom(pats: seq<seq<Step>>, i: nat, o: Options, pkt: seq<byte>, x: nat): Outcome
    decreases |pats| - i
  {
    if i >= |pats| then Returned(RejectCode(o))
    else match Attempt(pats[i], o.ignoreCase, pkt, x)
      case Match => Returned(AcceptCode(o))
      case NoMatch => TryFrom(pats, i + 1, o, pkt, x)
      case OutOfBounds => Aborted
  }

  /** The decision for a packet: the first pattern that matches accepts it, none rejects it,
      and a read past the end of the packet aborts the filter. */
  function Filter(pats: seq<seq<Step>>, o: Options, pkt: seq<byte>): Outcome
  {
    match StartOffset(o, pkt)
    case None => Aborted
    case Some(x) => TryFrom(pats, 0, o, pkt, x)
  }

  /** A run that lies inside the packet matches exactly when every one of its octets agrees
      with the packet octet under it. */
  lemma {:induction false} RunInside(run: seq<WireByte>, ignoreCase: bool, pkt: seq<byte>, x: nat, off: nat)
    requires off <= |run| && x + |run| <= |pkt|
    ensures RunFrom(run, ignoreCase, pkt, x, off) != OutOfBounds
    ensures RunFrom(run, ignoreCase, pkt, x, off) == Match
      <==> forall i :: off <= i < |run| ==> Agrees(run[i], ignoreCase, pkt[x + i])
    decreases |run| - off
  {
    if off < |run| {
      RunInside(run, ignoreCase, pkt, x, off + Width(|run| - off));
    }
  }

  /** Nothing but the octets from the cursor on matters to a pattern: the IP, UDP and DNS
      headers in front of the question name play no part in its verdict, so a pattern's
      verdict on a packet is its verdict on the name alone (the usage examples rely on it). */
  lemma {:induction false} AttemptShift(steps: seq<Step>, ignoreCase: bool, head: seq<byte>, pkt: seq<byte>, x: nat)
    ensures Attempt(steps, ignoreCase, head + pkt, |head| + x) == Attempt(steps, ignoreCase, pkt, x)
    decreases |steps|
  {
    if steps != [] {
      match steps[0]
      case Skip =>
        if x < |pkt| {
          assert (head + pkt)[|head| + x] == pkt[x];
          AttemptShift(steps[1..], ignoreCase, head, pkt, x + pkt[x] + 1);
        }
      case Run(run) =>
        RunShift(run, ignoreCase, head, pkt, x, 0);
        AttemptShift(steps[1..], ignoreCase, head, pkt, x + |run|);
    }
  }

  lemma {:induction false} RunShift(run: seq<WireByte>, ignoreCase: bool, head: seq<byte>, pkt: seq<byte>, x: nat, off: nat)
    ensures RunFrom(run, ignoreCase, head + pkt, |head| + x, off) == RunFrom(run, ignoreCase, pkt, x, off)
    decreases |run| - off
  {
    if off < |run| {
      var w := Width(|run| - off);
      if x + off + w <= |pkt| {
        assert forall j :: 0 <= j < |pkt| ==> (head + pkt)[|head| + j] == pkt[j];
      }
      RunShift(run, ignoreCase, head, pkt, x, off + w);
    }
  }

  /** The mask of an octet makes the compiled comparison exact: a packet octet ORed with the
      mask equals the pattern octet ORed with it exactly when the two agree. */
  lemma MaskMeaning(w: WireByte, ignoreCase: bool, p: byte)
    ensures ByteOr(p, MaskOf(w, ignoreCase)) == ByteOr(w.value, MaskOf(w, ignoreCase)) <==> Agrees(w, ignoreCase, p)
  {
    if w.isChar && w.value == QUESTION {
      ByteOrOnes(p);
      ByteOrOnes(w.value);
    } else if w.isChar && ignoreCase {
      ByteOrCaseBit(p);
      ByteOrCaseBit(w.value);
      SetCaseBitEq(p, w.value);
    } else {
      ByteOrZero(p);
      ByteOrZero(w.value);
    }
  }

  /** A matching run lies inside the packet. */
  lemma {:induction false} RunMatchInside(run: seq<WireByte>, ignoreCase: bool, pkt: seq<byte>, x: nat, off: nat)
    requires off < |run| && RunFrom(run, ignoreCase, pkt, x, off) == Match
    ensures x + |run| <= |pkt|
    decreases |run| - off
  {
    var w := Width(|run| - off);
    if off + w < |run| {
      RunMatchInside(run, ignoreCase, pkt, x, off + w);
    }
  }
}
