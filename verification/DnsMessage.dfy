/** The answer walkers of src/dns.rs over RFC 1035 messages: A/AAAA, TXT and PTR. */
module DnsMessage {
  import opened Bytes
  import opened Wrappers
  import opened DnsName
  import opened Sequences

  const QTYPE_A: nat := 1
  const QTYPE_PTR: nat := 12
  const QTYPE_TXT: nat := 16
  const QTYPE_AAAA: nat := 28

  datatype IpAddr = V4(octets: Octets) | V6(octets: Octets)

  /** The fixed part of a resource record and the extent of its data. */
  datatype Record = Record(rtype: nat, rdataStart: nat, rdataEnd: nat)

  datatype AnswerStart = AnswerStart(pos: nat, count: nat)

  // ---------------------------------------------------------------------------
  // What the walkers compute
  // ---------------------------------------------------------------------------

  /** The offset after `n` questions starting at `pos`. */
  ghost function AfterQuestions(buf: Octets, pos: nat, n: nat): Result<nat, WireError>
    decreases n, pos
  {
    if n == 0 then Ok(pos)
    else
      var name := Skip(buf, pos);
      if name.Err? then name
      else if name.value + 4 > |buf| then Err(TruncatedQuestion)
      else AfterQuestions(buf, name.value + 4, n - 1)
  }

  ghost function StartOfAnswers(buf: Octets): Result<AnswerStart, WireError> {
    if |buf| < 12 then Err(ResponseTooShort)
    else
      var pos := AfterQuestions(buf, 12, U16(buf[4], buf[5]));
      if pos.Err? then Err(pos.error) else Ok(AnswerStart(pos.value, U16(buf[6], buf[7])))
  }

  /** The record whose owner name starts at `pos`. */
  ghost function RecordAt(buf: Octets, pos: nat): (r: Result<Record, WireError>)
    ensures r.Ok? ==> r.value.rdataStart <= r.value.rdataEnd <= |buf|
  {
    var name := Skip(buf, pos);
    if name.Err? then Err(name.error)
    else if name.value + 10 > |buf| then Err(TruncatedHeader)
    else
      var p := name.value;
      var rdlength := U16(buf[p + 8], buf[p + 9]);
      if p + 10 + rdlength > |buf| then Err(TruncatedRdata)
      else Ok(Record(U16(buf[p], buf[p + 1]), p + 10, p + 10 + rdlength))
  }

  /** The address a record carries, if its type and length say it carries one. */
  ghost function AddressIn(rtype: nat, rdata: Octets): seq<IpAddr> {
    if rtype == QTYPE_A && |rdata| == 4 then [V4(rdata)]
    else if rtype == QTYPE_AAAA && |rdata| == 16 then [V6(rdata)]
    else []
  }

  /** The character-strings of TXT data (RFC 1035 section 3.3.14) run together; a last one may be cut short. */
  ghost function TextOf(rdata: Octets): Octets {
    if rdata == [] then []
    else
      var end := if 1 + rdata[0] <= |rdata| then 1 + rdata[0] else |rdata|;
      rdata[1..end] + TextOf(rdata[end..])
  }

  ghost function AddressesFrom(buf: Octets, pos: nat, n: nat): Result<seq<IpAddr>, WireError>
    decreases n, pos
  {
    if n == 0 then Ok([])
    else
      var rr := RecordAt(buf, pos);
      if rr.Err? then Err(rr.error)
      else Prepend(AddressIn(rr.value.rtype, buf[rr.value.rdataStart..rr.value.rdataEnd]),
                AddressesFrom(buf, rr.value.rdataEnd, n - 1))
  }

  ghost function TextsFrom(buf: Octets, pos: nat, n: nat): Result<seq<Octets>, WireError>
    decreases n, pos
  {
    if n == 0 then Ok([])
    else
      var rr := RecordAt(buf, pos);
      if rr.Err? then Err(rr.error)
      else Prepend(if rr.value.rtype == QTYPE_TXT then [TextOf(buf[rr.value.rdataStart..rr.value.rdataEnd])] else [],
                TextsFrom(buf, rr.value.rdataEnd, n - 1))
  }

  /** What reading the name at `at` makes a PTR walk return. */
  ghost function TargetAt(buf: Octets, at: nat): Result<Option<Octets>, WireError> {
    var name := NameAt(buf, at);
    if name.Err? then Err(name.error) else Ok(Some(name.value.text))
  }

  /** What a PTR walk that stops at this record returns. */
  ghost function PtrOutcome(buf: Octets, rr: Result<Record, WireError>): Result<Option<Octets>, WireError> {
    if rr.Err? then Err(rr.error) else TargetAt(buf, rr.value.rdataStart)
  }

  ghost function FirstPtrFrom(buf: Octets, pos: nat, n: nat): Result<Option<Octets>, WireError>
    decreases n, pos
  {
    if n == 0 then Ok(None)
    else
      var rr := RecordAt(buf, pos);
      if rr.Err? then Err(rr.error)
      else if rr.value.rtype == QTYPE_PTR then PtrOutcome(buf, rr)
      else FirstPtrFrom(buf, rr.value.rdataEnd, n - 1)
  }

  ghost function Addresses(buf: Octets): Result<seq<IpAddr>, WireError> {
    var start := StartOfAnswers(buf);
    if start.Err? then Err(start.error) else AddressesFrom(buf, start.value.pos, start.value.count)
  }

  ghost function Texts(buf: Octets): Result<seq<Octets>, WireError> {
    var start := StartOfAnswers(buf);
    if start.Err? then Err(start.error) else TextsFrom(buf, start.value.pos, start.value.count)
  }

  ghost function FirstPtr(buf: Octets): Result<Option<Octets>, WireError> {
    var start := StartOfAnswers(buf);
    if start.Err? then Err(start.error) else FirstPtrFrom(buf, start.value.pos, start.value.count)
  }

  // ---------------------------------------------------------------------------
  // The walkers
  // ---------------------------------------------------------------------------

  method AnswerSectionStart(buf: Octets) returns (r: Result<AnswerStart, WireError>)
    ensures r == StartOfAnswers(buf)
  {
    if |buf| < 12 {
      return Err(ResponseTooShort);
    }
    var qdcount := U16(buf[4], buf[5]);
    var ancount := U16(buf[6], buf[7]);
    var pos: nat := 12;
    for i := 0 to qdcount
      invariant AfterQuestions(buf, 12, qdcount) == AfterQuestions(buf, pos, qdcount - i)
    {
      var name := SkipName(buf, pos);
      if name.Err? {
        return Err(name.error);
      }
      pos := name.value + 4;
      if pos > |buf| {
        return Err(TruncatedQuestion);
      }
    }
    return Ok(AnswerStart(pos, ancount));
  }

  /** The owner name, the ten fixed octets and the extent of the data of one record, bounds checked. */
  method ReadRecord(buf: Octets, start: nat) returns (r: Result<Record, WireError>)
    ensures r == RecordAt(buf, start)
  {
    var name := SkipName(buf, start);
    if name.Err? {
      return Err(name.error);
    }
    var pos := name.value;
    var fixedEnd := pos + 10;
    if fixedEnd > |buf| {
      return Err(TruncatedHeader);
    }
    var rtype := U16(buf[pos], buf[pos + 1]);
    var rdlength := U16(buf[pos + 8], buf[pos + 9]);
    var rdataEnd := fixedEnd + rdlength;
    if rdataEnd > |buf| {
      return Err(TruncatedRdata);
    }
    return Ok(Record(rtype, fixedEnd, rdataEnd));
  }

  lemma AddressCases(rtype: nat, rdata: Octets)
    ensures rtype == QTYPE_A && |rdata| == 4 ==> AddressIn(rtype, rdata) == [V4(rdata)]
    ensures rtype == QTYPE_AAAA && |rdata| == 16 ==> AddressIn(rtype, rdata) == [V6(rdata)]
    ensures !(rtype == QTYPE_A && |rdata| == 4) && !(rtype == QTYPE_AAAA && |rdata| == 16) ==>
              AddressIn(rtype, rdata) == []
  {}

  method ParseAnswers(buf: Octets) returns (r: Result<seq<IpAddr>, WireError>)
    ensures r == Addresses(buf)
  {
    hide Skip, NameAt, U16, AddressIn, Prepend, RecordAt;
    var start := AnswerSectionStart(buf);
    if start.Err? {
      return Err(start.error);
    }
    var pos: nat, ancount := start.value.pos, start.value.count;
    var ips: seq<IpAddr> := [];
    ghost var all := AddressesFrom(buf, pos, ancount);
    PrependUnits(ips, all);
    for i := 0 to ancount
      invariant all == Prepend(ips, AddressesFrom(buf, pos, ancount - i))
    {
      var rr := ReadRecord(buf, pos);
      if rr.Err? {
        PrependUnits(ips, Err(rr.error));
        return Err(rr.error);
      }
      var Record(rtype, rdataStart, rdataEnd) := rr.value;
      var rdlength := rdataEnd - rdataStart;
      ghost var before := ips;
      ghost var found := AddressIn(rtype, buf[rdataStart..rdataEnd]);
      AddressCases(rtype, buf[rdataStart..rdataEnd]);
      if rtype == QTYPE_A && rdlength == 4 {
        ips := ips + [V4(buf[rdataStart..rdataEnd])];
      } else if rtype == QTYPE_AAAA && rdlength == 16 {
        ips := ips + [V6(buf[rdataStart..rdataEnd])];
      }
      assert ips == before + found;
      PrependTwice(before, found, AddressesFrom(buf, rdataEnd, ancount - i - 1));
      pos := rdataEnd;
    }
    PrependUnits(ips, all);
    return Ok(ips);
  }

  lemma NoText(buf: Octets, p: nat)
    requires p <= |buf|
    ensures TextOf(buf[p..p]) == []
  {}

  lemma SegmentStep(buf: Octets, p: nat, rdataEnd: nat)
    requires p < rdataEnd <= |buf|
    ensures var segEnd := if p + 1 + buf[p] <= rdataEnd then p + 1 + buf[p] else rdataEnd;
            TextOf(buf[p..rdataEnd]) == buf[p + 1..segEnd] + TextOf(buf[segEnd..rdataEnd])
  {
    var rest := buf[p..rdataEnd];
    var segEnd := if p + 1 + buf[p] <= rdataEnd then p + 1 + buf[p] else rdataEnd;
    assert rest[0] == buf[p];
    SliceOfSlice(buf, p, rdataEnd, p + 1, segEnd);
    SliceOfSlice(buf, p, rdataEnd, segEnd, rdataEnd);
  }

  /** The inner loop of `parse_txt`: every length-prefixed segment, the last one clipped to the record. */
  method ReadText(buf: Octets, rdataStart: nat, rdataEnd: nat) returns (s: Octets)
    requires rdataStart <= rdataEnd <= |buf|
    ensures s == TextOf(buf[rdataStart..rdataEnd])
  {
    hide TextOf;
    var p := rdataStart;
    s := [];
    assert s + TextOf(buf[p..rdataEnd]) == TextOf(buf[p..rdataEnd]);
    while p < rdataEnd
      invariant rdataStart <= p <= rdataEnd
      invariant TextOf(buf[rdataStart..rdataEnd]) == s + TextOf(buf[p..rdataEnd])
    {
      var segLen := buf[p];
      SegmentStep(buf, p, rdataEnd);
      p := p + 1;
      var segEnd := if p + segLen <= rdataEnd then p + segLen else rdataEnd;
      s := s + buf[p..segEnd];
      p := segEnd;
    }
    NoText(buf, p);
  }

  method ParseTxt(buf: Octets) returns (r: Result<seq<Octets>, WireError>)
    ensures r == Texts(buf)
  {
    hide Skip, NameAt, U16, TextOf, Prepend, RecordAt;
    var start := AnswerSectionStart(buf);
    if start.Err? {
      return Err(start.error);
    }
    var pos: nat, ancount := start.value.pos, start.value.count;
    var out: seq<Octets> := [];
    ghost var all := TextsFrom(buf, pos, ancount);
    PrependUnits(out, all);
    for i := 0 to ancount
      invariant all == Prepend(out, TextsFrom(buf, pos, ancount - i))
    {
      var rr := ReadRecord(buf, pos);
      if rr.Err? {
        PrependUnits(out, Err(rr.error));
        return Err(rr.error);
      }
      ghost var rest := TextsFrom(buf, rr.value.rdataEnd, ancount - i - 1);
      if rr.value.rtype == QTYPE_TXT {
        var s := ReadText(buf, rr.value.rdataStart, rr.value.rdataEnd);
        PrependTwice(out, [s], rest);
        out := out + [s];
      } else {
        PrependUnits(out, rest);
      }
      pos := rr.value.rdataEnd;
    }
    PrependUnits(out, all);
    return Ok(out);
  }

  method ParsePtr(buf: Octets) returns (r: Result<Option<Octets>, WireError>)
    ensures r == FirstPtr(buf)
  {
    hide Skip, NameAt, U16;
    var start := AnswerSectionStart(buf);
    if start.Err? {
      return Err(start.error);
    }
    var pos: nat, ancount := start.value.pos, start.value.count;
    for i := 0 to ancount
      invariant FirstPtr(buf) == FirstPtrFrom(buf, pos, ancount - i)
    {
      var rr := ReadRecord(buf, pos);
      if rr.Err? {
        return Err(rr.error);
      }
      if rr.value.rtype == QTYPE_PTR {
        var name := ParseName(buf, rr.value.rdataStart);
        if name.Err? {
          return Err(name.error);
        }
        return Ok(Some(name.value.text));
      }
      pos := rr.value.rdataEnd;
    }
    return Ok(None);
  }

  // ---------------------------------------------------------------------------
  // Agreement of the walkers on every buffer
  // ---------------------------------------------------------------------------

  lemma {:induction false} WalksAgree(buf: Octets, pos: nat, n: nat)
    ensures AddressesFrom(buf, pos, n).Ok? <==> TextsFrom(buf, pos, n).Ok?
    ensures AddressesFrom(buf, pos, n).Err? ==> TextsFrom(buf, pos, n) == Err(AddressesFrom(buf, pos, n).error)
    decreases n
  {
    hide RecordAt, AddressIn, TextOf;
    if n > 0 && RecordAt(buf, pos).Ok? {
      WalksAgree(buf, RecordAt(buf, pos).value.rdataEnd, n - 1);
    }
  }

  /** Address and text extraction accept the same buffers and refuse the rest for the same reason. */
  lemma AddressesAndTextsAgree(buf: Octets)
    ensures Addresses(buf).Ok? <==> Texts(buf).Ok?
    ensures Addresses(buf).Err? ==> Texts(buf) == Err(Addresses(buf).error)
  {
    if StartOfAnswers(buf).Ok? {
      WalksAgree(buf, StartOfAnswers(buf).value.pos, StartOfAnswers(buf).value.count);
    }
  }

  /** The k-th record after `pos`, from zero; once one is bad there is no further one. */
  ghost function RecordNo(buf: Octets, pos: nat, k: nat): Result<Record, WireError>
    decreases k
  {
    if k == 0 then RecordAt(buf, pos)
    else
      var before := RecordNo(buf, pos, k - 1);
      if before.Err? then before else RecordAt(buf, before.value.rdataEnd)
  }

  /** A record every walker passes over on its way to the first PTR record. */
  ghost predicate Passed(buf: Octets, pos: nat, k: nat) {
    RecordNo(buf, pos, k).Ok? && RecordNo(buf, pos, k).value.rtype != QTYPE_PTR
  }

  lemma {:induction false} RecordsShift(buf: Octets, pos: nat, k: nat)
    requires RecordAt(buf, pos).Ok?
    ensures RecordNo(buf, pos, k + 1) == RecordNo(buf, RecordAt(buf, pos).value.rdataEnd, k)
  {
    hide RecordAt;
    if k > 0 {
      RecordsShift(buf, pos, k - 1);
    }
  }

  /** The address walk fails with the error of the first bad record. */
  lemma {:induction false} AddressWalkStops(buf: Octets, pos: nat, n: nat, k: nat)
    requires k < n && RecordNo(buf, pos, k).Err? && forall j: nat :: j < k ==> RecordNo(buf, pos, j).Ok?
    ensures AddressesFrom(buf, pos, n) == Err(RecordNo(buf, pos, k).error)
    decreases k
  {
    hide RecordAt, AddressIn;
    if k > 0 {
      assert RecordNo(buf, pos, 0).Ok?;
      var next := RecordAt(buf, pos).value.rdataEnd;
      forall j: nat | j < k
        ensures RecordNo(buf, pos, j + 1) == RecordNo(buf, next, j)
      {
        RecordsShift(buf, pos, j);
      }
      assert RecordNo(buf, pos, k - 1 + 1) == RecordNo(buf, next, k - 1);
      AddressWalkStops(buf, next, n - 1, k - 1);
    }
  }

  lemma {:induction false} AddressWalkEnds(buf: Octets, pos: nat, n: nat)
    requires forall k: nat :: k < n ==> RecordNo(buf, pos, k).Ok?
    ensures AddressesFrom(buf, pos, n).Ok?
    decreases n
  {
    hide RecordAt, AddressIn;
    if n > 0 {
      assert RecordNo(buf, pos, 0).Ok?;
      var next := RecordAt(buf, pos).value.rdataEnd;
      forall j: nat | j < n - 1
        ensures RecordNo(buf, next, j).Ok?
      {
        RecordsShift(buf, pos, j);
        assert RecordNo(buf, pos, j + 1).Ok?;
      }
      AddressWalkEnds(buf, next, n - 1);
    }
  }

  lemma PassedShift(buf: Octets, pos: nat, k: nat)
    requires RecordAt(buf, pos).Ok?
    ensures Passed(buf, pos, k + 1) <==> Passed(buf, RecordAt(buf, pos).value.rdataEnd, k)
  {
    RecordsShift(buf, pos, k);
  }

  /** The PTR walk is decided by the first record that is bad or a PTR record. */
  lemma {:induction false} PtrWalkStops(buf: Octets, pos: nat, n: nat, k: nat)
    requires k < n && !Passed(buf, pos, k) && forall j: nat :: j < k ==> Passed(buf, pos, j)
    ensures FirstPtrFrom(buf, pos, n) == PtrOutcome(buf, RecordNo(buf, pos, k))
    decreases k
  {
    hide RecordAt, TargetAt;
    if k > 0 {
      assert Passed(buf, pos, 0);
      var next := RecordAt(buf, pos).value.rdataEnd;
      forall j: nat | j < k - 1
        ensures Passed(buf, next, j)
      {
        PassedShift(buf, pos, j);
        assert Passed(buf, pos, j + 1);
      }
      PassedShift(buf, pos, k - 1);
      RecordsShift(buf, pos, k - 1);
      PtrWalkStops(buf, next, n - 1, k - 1);
    }
  }

  lemma {:induction false} PtrWalkEnds(buf: Octets, pos: nat, n: nat)
    requires forall k: nat :: k < n ==> Passed(buf, pos, k)
    ensures FirstPtrFrom(buf, pos, n) == Ok(None)
    decreases n
  {
    hide RecordAt, PtrOutcome;
    if n > 0 {
      assert Passed(buf, pos, 0);
      var next := RecordAt(buf, pos).value.rdataEnd;
      forall j: nat | j < n - 1
        ensures Passed(buf, next, j)
      {
        PassedShift(buf, pos, j);
        assert Passed(buf, pos, j + 1);
      }
      PtrWalkEnds(buf, next, n - 1);
    }
  }

  /** The number of records passed over before the first that is bad or a PTR record. */
  lemma {:induction false} FirstStop(buf: Octets, pos: nat, n: nat) returns (k: nat)
    ensures k <= n && forall j: nat :: j < k ==> Passed(buf, pos, j)
    ensures k < n ==> !Passed(buf, pos, k)
  {
    if n == 0 {
      k := 0;
    } else {
      k := FirstStop(buf, pos, n - 1);
      if k == n - 1 && Passed(buf, pos, k) {
        k := n;
      }
    }
  }

  /** The answers can be reached and are all passed over: none is bad and none is a PTR record. */
  ghost predicate NoPtr(buf: Octets) {
    && StartOfAnswers(buf).Ok?
    && forall k: nat :: k < StartOfAnswers(buf).value.count ==> Passed(buf, StartOfAnswers(buf).value.pos, k)
  }

  /**
   * On every buffer the PTR walker finds nothing exactly when the answers can be reached, no record is bad and none is
   * a PTR record, and then the address walker accepts too. Where they cannot be reached both give the same error.
   */
  lemma PtrWalkAgrees(buf: Octets)
    ensures FirstPtr(buf) == Ok(None) <==> NoPtr(buf)
    ensures NoPtr(buf) ==> Addresses(buf).Ok?
    ensures StartOfAnswers(buf).Err? ==> FirstPtr(buf) == Err(StartOfAnswers(buf).error)
                                         && Addresses(buf) == Err(StartOfAnswers(buf).error)
  {
    hide StartOfAnswers, RecordAt, RecordNo, NameAt;
    if StartOfAnswers(buf).Ok? {
      var pos, n := StartOfAnswers(buf).value.pos, StartOfAnswers(buf).value.count;
      var k := FirstStop(buf, pos, n);
      if k < n {
        PtrWalkStops(buf, pos, n, k);
      } else {
        PtrWalkEnds(buf, pos, n);
        forall j: nat | j < n
          ensures RecordNo(buf, pos, j).Ok?
        {
          assert Passed(buf, pos, j);
        }
        AddressWalkEnds(buf, pos, n);
      }
    }
  }

  /**
   * Otherwise the first bad or PTR record k decides: a PTR record gives the name its data denotes or the error of
   * reading it; a bad record gives its error, which is the address walker's too.
   */
  lemma PtrDecidedAt(buf: Octets, k: nat)
    requires StartOfAnswers(buf).Ok? && k < StartOfAnswers(buf).value.count
    requires !Passed(buf, StartOfAnswers(buf).value.pos, k)
    requires forall j: nat :: j < k ==> Passed(buf, StartOfAnswers(buf).value.pos, j)
    ensures var rr := RecordNo(buf, StartOfAnswers(buf).value.pos, k);
            && FirstPtr(buf) == PtrOutcome(buf, rr)
            && (rr.Err? ==> Addresses(buf) == Err(rr.error))
  {
    hide StartOfAnswers, RecordAt, RecordNo, PtrOutcome;
    var pos, n := StartOfAnswers(buf).value.pos, StartOfAnswers(buf).value.count;
    PtrWalkStops(buf, pos, n, k);
    if RecordNo(buf, pos, k).Err? {
      forall j: nat | j < k
        ensures RecordNo(buf, pos, j).Ok?
      {
        assert Passed(buf, pos, j);
      }
      AddressWalkStops(buf, pos, n, k);
    }
  }

  // ---------------------------------------------------------------------------
  // Records by their octets
  // ---------------------------------------------------------------------------

  /** A record at `pos` whose name ends at p, with these TYPE octets and `len` octets of data. */
  ghost predicate RecordOctets(buf: Octets, pos: nat, p: nat, typeHigh: Byte, typeLow: Byte, len: nat) {
    && Skip(buf, pos) == Ok(p)
    && p + 10 + len <= |buf|
    && buf[p] == typeHigh && buf[p + 1] == typeLow
    && buf[p + 8] == len / 256 && buf[p + 9] == len % 256
  }

  lemma OneRecord(buf: Octets, pos: nat)
    requires RecordAt(buf, pos).Ok?
    ensures var rr := RecordAt(buf, pos).value;
            && AddressesFrom(buf, pos, 1) == Ok(AddressIn(rr.rtype, buf[rr.rdataStart..rr.rdataEnd]))
            && TextsFrom(buf, pos, 1) == Ok(if rr.rtype == QTYPE_TXT then [TextOf(buf[rr.rdataStart..rr.rdataEnd])] else [])
            && FirstPtrFrom(buf, pos, 1) == if rr.rtype == QTYPE_PTR then TargetAt(buf, rr.rdataStart) else Ok(None)
  {
    hide RecordAt, TextOf, AddressIn, TargetAt;
    var rr := RecordAt(buf, pos).value;
    PrependUnits<IpAddr, WireError>(AddressIn(rr.rtype, buf[rr.rdataStart..rr.rdataEnd]), Ok([]));
    assert AddressesFrom(buf, rr.rdataEnd, 0) == Ok([]) && TextsFrom(buf, rr.rdataEnd, 0) == Ok([]);
    assert FirstPtrFrom(buf, rr.rdataEnd, 0) == Ok(None);
    assert forall t: seq<Octets> :: t + [] == t;
  }

  /**
   * TYPE octets 0,1 with four octets of data give an IPv4 address and 0,28 with sixteen an IPv6 address; other lengths
   * give none; 0,16 gives a text; 0,12 is the pointer a PTR lookup follows.
   */
  lemma RecordsByOctets(buf: Octets, pos: nat, p: nat, typeLow: Byte, len: nat)
    requires len < 0x1_0000 && RecordOctets(buf, pos, p, 0, typeLow, len)
    ensures AddressesFrom(buf, pos, 1) ==
            Ok(if typeLow == 1 && len == 4 then [V4(buf[p + 10..p + 14])]
               else if typeLow == 28 && len == 16 then [V6(buf[p + 10..p + 26])] else [])
    ensures TextsFrom(buf, pos, 1) == Ok(if typeLow == 16 then [TextOf(buf[p + 10..p + 10 + len])] else [])
    ensures FirstPtrFrom(buf, pos, 1) == if typeLow == 12 then TargetAt(buf, p + 10) else Ok(None)
  {
    hide Skip, TextOf, TargetAt;
    assert RecordAt(buf, pos) == Ok(Record(typeLow, p + 10, p + 10 + len));
    OneRecord(buf, pos);
  }

  /** Labels are put together with the character 0x2E. */
  lemma DotExample()
    ensures Dotted([[0x61], [0x62, 0x63]]) == [0x61, 0x2E, 0x62, 0x63]
  {
    var one: Octets := [0x61];
    assert [[0x61], [0x62, 0x63]][..1] == [one];
  }
}
