/** Domain names on the wire (RFC 1035 sections 3.1 and 4.1.4): the two readers of src/dns.rs. */
module DnsName {
  import opened Bits
  import opened Bytes
  import opened Wrappers
  import opened Sequences

  datatype WireError =
    | ResponseTooShort
    | NameOutOfBounds
    | LabelOutOfBounds
    | PointerOutOfBounds
    | InvalidLabelType
    | CompressionLoop
    | TruncatedQuestion
    | TruncatedHeader
    | TruncatedRdata

  const DOT: Byte := 0x2E
  const MAX_STEPS: nat := 128

  /** `len & 0xC0`: zero selects a label, 0xC0 a compression pointer, anything else is reserved. */
  function LabelTag(len: Byte): (tag: Byte)
    ensures tag == 0 <==> len < 64
    ensures tag == 0xC0 <==> len >= 192
  {
    TopTwo(len)
  }

  /** The 14-bit offset of a compression pointer. */
  ghost function OffsetOf(len: nat, b2: nat): nat
    requires len >= 192
  {
    256 * (len - 192) + b2
  }

  /** `((len & 0x3F) << 8) | b2`, the 14-bit number the two octets of a pointer hold. */
  function PointerTarget(len: Byte, b2: Byte): (target: nat)
    ensures len >= 192 ==> target == OffsetOf(len, b2)
  {
    U16(LowSix(len), b2)
  }

  /** The labels with dots between them. */
  function Dotted(labels: seq<Octets>): Octets { Join(labels, DOT) }

  // ---------------------------------------------------------------------------
  // What the two readers compute
  // ---------------------------------------------------------------------------

  /** Where the octets of the name at `pos` end; a pointer ends it without being followed. */
  ghost function Skip(buf: Octets, pos: nat): (r: Result<nat, WireError>)
    ensures r.Ok? ==> pos < r.value <= |buf|
    decreases |buf| - pos
  {
    if pos >= |buf| then Err(NameOutOfBounds)
    else if LabelTag(buf[pos]) == 0 then
      if buf[pos] == 0 then Ok(pos + 1)
      else if pos + 1 + buf[pos] > |buf| then Err(LabelOutOfBounds)
      else Skip(buf, pos + 1 + buf[pos])
    else if LabelTag(buf[pos]) == 0xC0 then
      if pos + 2 > |buf| then Err(PointerOutOfBounds) else Ok(pos + 2)
    else Err(InvalidLabelType)
  }

  /** The labels reached from `pos` within `fuel` length octets, pointers followed. */
  ghost function Follow(buf: Octets, pos: nat, fuel: nat): Result<seq<Octets>, WireError>
    decreases fuel, pos
  {
    if fuel == 0 then Err(CompressionLoop)
    else if pos >= |buf| then Err(NameOutOfBounds)
    else if LabelTag(buf[pos]) == 0 then
      if buf[pos] == 0 then Ok([])
      else if pos + 1 + buf[pos] > |buf| then Err(LabelOutOfBounds)
      else Prepend([buf[pos + 1..pos + 1 + buf[pos]]], Follow(buf, pos + 1 + buf[pos], fuel - 1))
    else if LabelTag(buf[pos]) == 0xC0 then
      if pos + 1 >= |buf| then Err(PointerOutOfBounds)
      else Follow(buf, PointerTarget(buf[pos], buf[pos + 1]), fuel - 1)
    else Err(InvalidLabelType)
  }

  /** A decoded name and the offset just after its octets at the place it was read. */
  datatype Name = Name(text: Octets, next: nat)

  /** Whatever the pointer reader accepts, the skipper accepts too. */
  lemma {:induction false} FollowedNamesCanBeSkipped(buf: Octets, pos: nat, fuel: nat)
    requires Follow(buf, pos, fuel).Ok?
    ensures Skip(buf, pos).Ok?
    decreases fuel
  {
    hide LabelTag, PointerTarget;
    if 0 < buf[pos] < 64 {
      FollowedNamesCanBeSkipped(buf, pos + 1 + buf[pos], fuel - 1);
    }
  }

  ghost function NameAt(buf: Octets, start: nat): Result<Name, WireError> {
    var labels := Follow(buf, start, MAX_STEPS);
    if labels.Err? then Err(labels.error)
    else
      FollowedNamesCanBeSkipped(buf, start, MAX_STEPS);
      Ok(Name(Dotted(labels.value), Skip(buf, start).value))
  }

  // ---------------------------------------------------------------------------
  // RFC 1035 section 4.1.4 as a relation, with no bound and no algorithm
  // ---------------------------------------------------------------------------

  /** Where the chain of length octets goes on from `pos`: past a label or to the target of a pointer. */
  ghost function ChainStep(buf: Octets, pos: nat): (next: Option<nat>)
    ensures next.Some? ==> pos < |buf| && (buf[pos] < 64 ==> pos < next.value <= |buf|)
  {
    if pos >= |buf| then None
    else if 0 < buf[pos] < 64 && pos + 1 + buf[pos] <= |buf| then Some(pos + 1 + buf[pos])
    else if buf[pos] >= 192 && pos + 1 < |buf| then Some(OffsetOf(buf[pos], buf[pos + 1]))
    else None
  }

  /** The octets at `pos` denote `labels` through a chain of exactly `steps` length octets. */
  ghost predicate Denotes(buf: Octets, pos: nat, labels: seq<Octets>, steps: nat)
    decreases steps
  {
    && steps > 0
    && pos < |buf|
    && if buf[pos] == 0 then labels == [] && steps == 1
       else
         var next := ChainStep(buf, pos);
         && next.Some?
         && if buf[pos] < 64 then
              && labels != []
              && labels[0] == buf[pos + 1..next.value]
              && Denotes(buf, next.value, labels[1..], steps - 1)
            else Denotes(buf, next.value, labels, steps - 1)
  }

  lemma {:induction false} FollowIsSound(buf: Octets, pos: nat, labels: seq<Octets>, fuel: nat)
    requires Follow(buf, pos, fuel) == Ok(labels)
    ensures exists steps: nat :: steps <= fuel && Denotes(buf, pos, labels, steps)
    decreases fuel
  {
    hide LabelTag, PointerTarget;
    var len := buf[pos];
    if len == 0 {
      assert Denotes(buf, pos, labels, 1);
    } else if len < 64 {
      var rest := Follow(buf, pos + 1 + len, fuel - 1);
      assert labels == [buf[pos + 1..pos + 1 + len]] + rest.value;
      assert labels[1..] == rest.value;
      FollowIsSound(buf, pos + 1 + len, labels[1..], fuel - 1);
      var steps: nat :| steps <= fuel - 1 && Denotes(buf, pos + 1 + len, labels[1..], steps);
      assert Denotes(buf, pos, labels, steps + 1);
    } else {
      var target := PointerTarget(len, buf[pos + 1]);
      FollowIsSound(buf, target, labels, fuel - 1);
      var steps: nat :| steps <= fuel - 1 && Denotes(buf, target, labels, steps);
      assert Denotes(buf, pos, labels, steps + 1);
    }
  }

  /** One step of the walk, in terms of the chain. */
  lemma FollowByStep(buf: Octets, pos: nat, fuel: nat)
    requires fuel > 0 && ChainStep(buf, pos).Some?
    ensures var next := ChainStep(buf, pos).value;
            Follow(buf, pos, fuel) ==
            if buf[pos] < 64 then Prepend([buf[pos + 1..next]], Follow(buf, next, fuel - 1)) else Follow(buf, next, fuel - 1)
  {
    hide LabelTag, PointerTarget;
  }

  lemma {:induction false} FollowIsComplete(buf: Octets, pos: nat, labels: seq<Octets>, steps: nat, fuel: nat)
    requires steps <= fuel && Denotes(buf, pos, labels, steps)
    ensures Follow(buf, pos, fuel) == Ok(labels)
    decreases steps
  {
    hide LabelTag, PointerTarget, ChainStep;
    if buf[pos] != 0 {
      var next := ChainStep(buf, pos).value;
      FollowByStep(buf, pos, fuel);
      if buf[pos] < 64 {
        FollowIsComplete(buf, next, labels[1..], steps - 1, fuel - 1);
        assert labels == [labels[0]] + labels[1..];
      } else {
        FollowIsComplete(buf, next, labels, steps - 1, fuel - 1);
      }
    }
  }

  /** The bounded walk finds the denoted labels exactly when some derivation fits in its budget. */
  lemma {:induction false} FollowIffDenotes(buf: Octets, pos: nat, labels: seq<Octets>, fuel: nat)
    ensures Follow(buf, pos, fuel) == Ok(labels) <==> exists steps: nat :: steps <= fuel && Denotes(buf, pos, labels, steps)
  {
    if Follow(buf, pos, fuel) == Ok(labels) {
      FollowIsSound(buf, pos, labels, fuel);
    }
    forall steps: nat | steps <= fuel && Denotes(buf, pos, labels, steps)
      ensures Follow(buf, pos, fuel) == Ok(labels)
    {
      FollowIsComplete(buf, pos, labels, steps, fuel);
    }
  }

  /** A place denotes at most one list of labels, along one chain. */
  lemma {:induction false} DenotationUnique(buf: Octets, pos: nat, a: seq<Octets>, m: nat, b: seq<Octets>, n: nat)
    requires Denotes(buf, pos, a, m) && Denotes(buf, pos, b, n)
    ensures a == b && m == n
    decreases m
  {
    var len := buf[pos];
    if len == 0 {
    } else if len < 64 {
      DenotationUnique(buf, pos + 1 + len, a[1..], m - 1, b[1..], n - 1);
      assert a == [a[0]] + a[1..] && b == [b[0]] + b[1..];
    } else {
      DenotationUnique(buf, OffsetOf(len, buf[pos + 1]), a, m - 1, b, n - 1);
    }
  }

  /** Every accepted name has fewer labels than the budget, each of 1 to 63 octets. */
  lemma {:induction false} FollowBounds(buf: Octets, pos: nat, fuel: nat)
    requires Follow(buf, pos, fuel).Ok?
    ensures var labels := Follow(buf, pos, fuel).value;
            |labels| < fuel && forall i :: 0 <= i < |labels| ==> 1 <= |labels[i]| <= 63
    decreases fuel
  {
    hide LabelTag, PointerTarget;
    if 0 < buf[pos] < 64 {
      FollowBounds(buf, pos + 1 + buf[pos], fuel - 1);
    } else if buf[pos] >= 192 {
      FollowBounds(buf, PointerTarget(buf[pos], buf[pos + 1]), fuel - 1);
    }
  }

  /** The octets at `start` denote `text` through a chain of at most 128 length octets. */
  ghost predicate Names(buf: Octets, start: nat, text: Octets) {
    exists labels, steps: nat ::
      |labels| <= 127 && steps <= MAX_STEPS && Denotes(buf, start, labels, steps) && text == Dotted(labels)
  }

  /** Some name within the budget is denoted here. */
  ghost predicate Nameable(buf: Octets, start: nat) {
    exists labels, steps: nat :: steps <= MAX_STEPS && Denotes(buf, start, labels, steps)
  }

  /** The result of `ParseName` in terms of the relation of RFC 1035 alone. */
  lemma NameAtIffDenotes(buf: Octets, start: nat)
    ensures NameAt(buf, start).Ok? ==> Names(buf, start, NameAt(buf, start).value.text)
    ensures NameAt(buf, start).Ok? <==> Nameable(buf, start)
  {
    hide Denotes, Dotted;
    var r := Follow(buf, start, MAX_STEPS);
    if r.Ok? {
      FollowIsSound(buf, start, r.value, MAX_STEPS);
      FollowBounds(buf, start, MAX_STEPS);
    } else {
      forall labels, steps: nat | Denotes(buf, start, labels, steps)
        ensures steps > 128
      {
        if steps <= 128 {
          FollowIsComplete(buf, start, labels, steps, MAX_STEPS);
        }
      }
    }
  }

  // ---------------------------------------------------------------------------
  // Chains that do not end in time, and pointer cycles
  // ---------------------------------------------------------------------------

  /** Following k length octets from p, labels and pointers alike, arrives at q. */
  ghost predicate Leads(buf: Octets, p: nat, q: nat, k: nat)
    decreases k
  {
    if k == 0 then p == q else ChainStep(buf, p).Some? && Leads(buf, ChainStep(buf, p).value, q, k - 1)
  }

  /** The chain of length octets from p has at least n, none of them the root. */
  ghost predicate RunsOn(buf: Octets, p: nat, n: nat)
    decreases n
  {
    n == 0 || (ChainStep(buf, p).Some? && RunsOn(buf, ChainStep(buf, p).value, n - 1))
  }

  /** The walk gives up as a loop exactly when the chain goes on for as many length octets as the budget allows. */
  lemma {:induction false} LoopErrorIff(buf: Octets, pos: nat, fuel: nat)
    ensures Follow(buf, pos, fuel) == Err(CompressionLoop) <==> RunsOn(buf, pos, fuel)
    decreases fuel
  {
    hide LabelTag, PointerTarget;
    if fuel > 0 && ChainStep(buf, pos).Some? {
      LoopErrorIff(buf, ChainStep(buf, pos).value, fuel - 1);
    }
  }

  /** A chain that runs into a cycle goes on for ever. */
  lemma {:induction false} CycleRunsOn(buf: Octets, p: nat, q: nat, j: nat, k: nat, n: nat)
    requires Leads(buf, p, q, j) && k > 0 && Leads(buf, q, q, k)
    ensures RunsOn(buf, p, n)
    decreases n
  {
    if n > 0 {
      var left := if j == 0 then k else j;
      CycleRunsOn(buf, ChainStep(buf, p).value, q, left - 1, k, n - 1);
    }
  }

  /** Whatever labels and pointers lead into it, a cycle denotes nothing and is refused as a loop. */
  lemma CycleIsRefused(buf: Octets, p: nat, q: nat, j: nat, k: nat)
    requires Leads(buf, p, q, j) && k > 0 && Leads(buf, q, q, k)
    ensures NameAt(buf, p) == Err(CompressionLoop)
    ensures forall labels, steps: nat :: !Denotes(buf, p, labels, steps)
  {
    hide Leads, RunsOn, Denotes;
    CycleRunsOn(buf, p, q, j, k, MAX_STEPS);
    LoopErrorIff(buf, p, MAX_STEPS);
    forall labels, steps: nat
      ensures !Denotes(buf, p, labels, steps)
    {
      if Denotes(buf, p, labels, steps) {
        FollowIsComplete(buf, p, labels, steps, steps);
        CycleRunsOn(buf, p, q, j, k, steps);
        LoopErrorIff(buf, p, steps);
      }
    }
  }

  /** The shortest cycle: a pointer at itself is refused, though the skipper passes over it. */
  lemma SelfPointerIsRefused(buf: Octets, pos: nat)
    requires pos + 1 < |buf| && buf[pos] >= 192 && OffsetOf(buf[pos], buf[pos + 1]) == pos
    ensures NameAt(buf, pos) == Err(CompressionLoop)
    ensures Skip(buf, pos) == Ok(pos + 2)
    ensures forall labels, steps: nat :: !Denotes(buf, pos, labels, steps)
  {
    assert Leads(buf, pos, pos, 0) && Leads(buf, pos, pos, 1);
    CycleIsRefused(buf, pos, pos, 0, 1);
  }

  // ---------------------------------------------------------------------------
  // The readers
  // ---------------------------------------------------------------------------

  method SkipName(buf: Octets, start: nat) returns (r: Result<nat, WireError>)
    ensures r == Skip(buf, start)
  {
    var pos := start;
    while true
      invariant Skip(buf, start) == Skip(buf, pos)
      decreases |buf| - pos
    {
      if pos >= |buf| {
        return Err(NameOutOfBounds);
      }
      var len := buf[pos];
      var tag := LabelTag(len);
      if tag == 0 {
        if len == 0 {
          return Ok(pos + 1);
        }
        if pos + 1 + len > |buf| {
          return Err(LabelOutOfBounds);
        }
        pos := pos + 1 + len;
      } else if tag == 0xC0 {
        var after := pos + 2;
        if after > |buf| {
          return Err(PointerOutOfBounds);
        }
        return Ok(after);
      } else {
        return Err(InvalidLabelType);
      }
    }
  }

  /**
   * Reads a name, following pointers for at most 128 length octets. It succeeds exactly when the octets
   * denote a name within that budget, and then agrees with the skipper on where the name ends.
   */
  method ParseName(buf: Octets, start: nat) returns (r: Result<Name, WireError>)
    ensures r == NameAt(buf, start)
    ensures r.Ok? ==> Skip(buf, start) == Ok(r.value.next)
    ensures r.Ok? ==> Names(buf, start, r.value.text)
    ensures r.Ok? <==> Nameable(buf, start)
  {
    var labels: seq<Octets> := [];
    var pos: nat := start;
    var jumped := false;
    var next := start;
    var guard: nat := 0;
    hide LabelTag, PointerTarget, Names, Nameable, Dotted;
    NameAtIffDenotes(buf, start);
    PrependUnits(labels, Follow(buf, start, MAX_STEPS));
    while true
      invariant 0 <= guard <= MAX_STEPS
      invariant Follow(buf, start, MAX_STEPS) == Prepend(labels, Follow(buf, pos, MAX_STEPS - guard))
      invariant Skip(buf, start) == if jumped then Ok(next) else Skip(buf, pos)
      decreases MAX_STEPS - guard
    {
      guard := guard + 1;
      if guard > MAX_STEPS {
        return Err(CompressionLoop);
      }
      if pos >= |buf| {
        return Err(NameOutOfBounds);
      }
      var len := buf[pos];
      var tag := LabelTag(len);
      if tag == 0 {
        if len == 0 {
          if !jumped {
            next := pos + 1;
          }
          break;
        }
        var s := pos + 1;
        var e := s + len;
        if e > |buf| {
          return Err(LabelOutOfBounds);
        }
        PrependTwice(labels, [buf[s..e]], Follow(buf, e, MAX_STEPS - guard));
        labels := labels + [buf[s..e]];
        pos := e;
      } else if tag == 0xC0 {
        if pos + 1 >= |buf| {
          return Err(PointerOutOfBounds);
        }
        var ptr := PointerTarget(len, buf[pos + 1]);
        if !jumped {
          next := pos + 2;
          jumped := true;
        }
        pos := ptr;
      } else {
        return Err(InvalidLabelType);
      }
    }
    PrependUnits(labels, Follow(buf, start, MAX_STEPS));
    return Ok(Name(Dotted(labels), next));
  }
}
