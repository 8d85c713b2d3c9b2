/** The query encoder of src/dns.rs: header, question, and the EDNS client-subnet record of RFC 6891 and RFC 7871. */
module DnsQuery {
  import opened Bytes
  import opened Wrappers
  import opened Sequences
  import opened DnsName
  import opened DnsMessage
  import opened DnsRoundTrip
  import opened DnsEcs

  const QCLASS_IN: nat := 1
  const RR_OPT: nat := 41
  const EDNS_UDP_PAYLOAD: nat := 4096
  const EDNS_OPT_CLIENT_SUBNET: nat := 8

  datatype QueryError = EmptyLabel | LabelTooLong

  // ---------------------------------------------------------------------------
  // Host names
  // ---------------------------------------------------------------------------

  /** `strip_suffix('.')`, once. */
  function StripDot(host: Octets): Octets {
    if host != [] && host[|host| - 1] == DOT then host[..|host| - 1] else host
  }

  /** The labels a host name is encoded as; the root has none. */
  function LabelsOf(host: Octets): seq<Octets> {
    var h := StripDot(host);
    if h == [] then [] else Split(h, DOT)
  }

  /** The labels of a host are dot-free and dotted together give it back, less one trailing dot. */
  lemma HostIsItsLabels(host: Octets)
    ensures Dotted(LabelsOf(host)) == StripDot(host)
    ensures forall i :: 0 <= i < |LabelsOf(host)| ==> DOT !in LabelsOf(host)[i]
  {
    JoinSplit(StripDot(host), DOT);
    SplitHasNoSeparator(StripDot(host), DOT);
  }

  lemma SplitDotted(labels: seq<Octets>)
    requires labels != [] && forall i :: 0 <= i < |labels| ==> DOT !in labels[i]
    ensures Split(Dotted(labels), DOT) == labels
  {
    SplitJoin(labels, DOT);
  }

  lemma LastOfDotted(labels: seq<Octets>)
    requires labels != [] && labels[|labels| - 1] != [] && DOT !in labels[|labels| - 1]
    ensures Dotted(labels) != [] && Dotted(labels)[|Dotted(labels)| - 1] != DOT
  {
    var last := labels[|labels| - 1];
    assert last[|last| - 1] in last;
  }

  lemma NothingDotted()
    ensures Dotted([]) == []
  {}

  /** They are the only such labels: nonempty dot-free labels are those of their dotted form, rooted or not. */
  lemma LabelsReadBack(labels: seq<Octets>)
    requires forall i :: 0 <= i < |labels| ==> labels[i] != [] && DOT !in labels[i]
    ensures LabelsOf(Dotted(labels)) == labels
    ensures labels != [] ==> LabelsOf(Dotted(labels) + [DOT]) == labels
  {
    if labels != [] {
      hide Split, Dotted;
      var h := Dotted(labels);
      SplitDotted(labels);
      LastOfDotted(labels);
      assert (h + [DOT])[..|h|] == h;
    } else {
      NothingDotted();
    }
  }

  // ---------------------------------------------------------------------------
  // Encoding
  // ---------------------------------------------------------------------------

  lemma {:induction false} EncodeLabelsAppend(labels: seq<Octets>, text: Octets)
    requires forall i :: 0 <= i < |labels| ==> ValidLabel(labels[i])
    requires ValidLabel(text)
    ensures EncodeLabels(labels + [text]) == EncodeLabels(labels) + EncodeLabel(text)
  {
    if labels != [] {
      EncodeLabelsAppend(labels[1..], text);
      assert (labels + [text])[1..] == labels[1..] + [text];
    } else {
      assert (labels + [text])[1..] == [];
    }
  }

  /** The error names the first label that cannot be encoded. */
  ghost predicate FirstBadLabel(labels: seq<Octets>, i: nat, e: QueryError)
    requires i < |labels|
  {
    && (forall k :: 0 <= k < i ==> ValidLabel(labels[k]))
    && e == (if labels[i] == [] then EmptyLabel else LabelTooLong)
    && !ValidLabel(labels[i])
  }

  method EncodeQName(pkt: Octets, host: Octets) returns (r: Result<Octets, QueryError>)
    ensures r.Ok? <==> forall i :: 0 <= i < |LabelsOf(host)| ==> ValidLabel(LabelsOf(host)[i])
    ensures r.Ok? ==> r.value == pkt + EncodeName(WireName(LabelsOf(host), None))
    ensures r.Err? ==> exists i :: 0 <= i < |LabelsOf(host)| && FirstBadLabel(LabelsOf(host), i, r.error)
  {
    var h := StripDot(host);
    if h == [] {
      return Ok(pkt + [0]);
    }
    var labels := Split(h, DOT);
    var out := pkt;
    for i := 0 to |labels|
      invariant forall k :: 0 <= k < i ==> ValidLabel(labels[k])
      invariant out == pkt + EncodeLabels(labels[..i])
    {
      var bytes := labels[i];
      if bytes == [] {
        assert FirstBadLabel(LabelsOf(host), i, EmptyLabel);
        return Err(EmptyLabel);
      }
      if |bytes| > 63 {
        assert FirstBadLabel(LabelsOf(host), i, LabelTooLong);
        return Err(LabelTooLong);
      }
      EncodeLabelsAppend(labels[..i], bytes);
      assert labels[..i + 1] == labels[..i] + [bytes];
      out := out + [|bytes|] + bytes;
      assert EncodeLabel(bytes) == [|bytes|] + bytes;
    }
    assert labels[..|labels|] == labels;
    return Ok(out + [0]);
  }

  /** OPTION-CODE, OPTION-LENGTH, FAMILY, SOURCE PREFIX-LENGTH, SCOPE PREFIX-LENGTH, ADDRESS. */
  ghost function ClientSubnetOption(subnet: EcsSubnet): (s: Octets)
    ensures |s| == 8 + |subnet.addrBytes|
  {
    PutU16(EDNS_OPT_CLIENT_SUBNET) + PutU16(4 + |subnet.addrBytes|) + PutU16(subnet.family)
    + [subnet.sourcePrefix] + [0] + subnet.addrBytes
  }

  /** The OPT pseudo-record the source appends for a subnet. */
  ghost function OptRecord(subnet: EcsSubnet): Octets
  {
    [0] + PutU16(RR_OPT) + PutU16(EDNS_UDP_PAYLOAD) + BigEndian(0, 4) + PutU16(8 + |subnet.addrBytes|)
    + ClientSubnetOption(subnet)
  }

  ghost function TailOf(ecs: Option<EcsSubnet>): Octets {
    if ecs.Some? then OptRecord(ecs.value) else []
  }

  /** The query as a message of the reference builder. */
  ghost function QueryMessage(id: nat, host: Octets, qtype: nat, ecs: Option<EcsSubnet>): Message {
    Message(id, 0x0100, [Question(WireName(LabelsOf(host), None), qtype, QCLASS_IN)], [], 0,
            if ecs.Some? then 1 else 0, TailOf(ecs))
  }

  lemma FlatQuery(header: Octets, name: Octets, qtype: Octets, qclass: Octets, tail: Octets)
    ensures header + ((name + qtype + qclass) + ([] + tail)) == header + name + qtype + qclass + tail
  {}

  lemma EncodedQuery(id: nat, host: Octets, qtype: nat, ecs: Option<EcsSubnet>)
    requires ValidName(WireName(LabelsOf(host), None))
    ensures ValidMessage(QueryMessage(id, host, qtype, ecs))
    ensures Encode(QueryMessage(id, host, qtype, ecs)) ==
            PutU16(id) + PutU16(0x0100) + PutU16(1) + PutU16(0) + PutU16(0) + PutU16(if ecs.Some? then 1 else 0)
            + EncodeName(WireName(LabelsOf(host), None)) + PutU16(qtype) + PutU16(QCLASS_IN) + TailOf(ecs)
  {
    hide EncodeName, ValidName, PutU16, TailOf, LabelsOf;
    var m := QueryMessage(id, host, qtype, ecs);
    assert m.questions[1..] == [] && EncodeQuestions(m.questions[1..]) == [];
    assert EncodeQuestions(m.questions) == EncodeQuestion(m.questions[0]);
    assert EncodeAnswers(m.answers) == [];
    FlatQuery(EncodeHeader(m), EncodeName(m.questions[0].name), PutU16(qtype), PutU16(QCLASS_IN), m.tail);
  }

  method AppendOpt(pkt: Octets, subnet: EcsSubnet) returns (out: Octets)
    ensures out == pkt + OptRecord(subnet)
  {
    hide PutU16, BigEndian;
    out := pkt + [0];
    out := out + PutU16(RR_OPT);
    out := out + PutU16(EDNS_UDP_PAYLOAD);
    out := out + BigEndian(0, 4);
    var optionDataLen := 4 + |subnet.addrBytes|;
    var rdlength := 4 + optionDataLen;
    out := out + PutU16(rdlength);
    out := out + PutU16(EDNS_OPT_CLIENT_SUBNET);
    out := out + PutU16(optionDataLen);
    out := out + PutU16(subnet.family);
    out := out + [subnet.sourcePrefix];
    out := out + [0];
    out := out + subnet.addrBytes;
  }

  method EncodeQuery(id: nat, host: Octets, qtype: nat, ecs: Option<EcsSubnet>) returns (r: Result<Octets, QueryError>)
    ensures r.Ok? <==> forall i :: 0 <= i < |LabelsOf(host)| ==> ValidLabel(LabelsOf(host)[i])
    ensures r.Ok? ==> ValidMessage(QueryMessage(id, host, qtype, ecs))
                      && r.value == Encode(QueryMessage(id, host, qtype, ecs))
  {
    hide PutU16, Encode, EncodeName, LabelsOf;
    var arcount := if ecs.Some? then 1 else 0;
    var pkt := PutU16(id);
    pkt := pkt + PutU16(0x0100);
    pkt := pkt + PutU16(1);
    pkt := pkt + PutU16(0);
    pkt := pkt + PutU16(0);
    pkt := pkt + PutU16(arcount);
    var question := EncodeQName(pkt, host);
    if question.Err? {
      return Err(question.error);
    }
    pkt := question.value;
    pkt := pkt + PutU16(qtype);
    pkt := pkt + PutU16(QCLASS_IN);
    ghost var head := pkt;
    if ecs.Some? {
      var subnet := ecs.value;
      var opt := AppendOpt(pkt, subnet);
      pkt := opt;
    }
    EncodedQuery(id, host, qtype, ecs);
    assert pkt == head + TailOf(ecs);
    return Ok(pkt);
  }

  // ---------------------------------------------------------------------------
  // Round trip
  // ---------------------------------------------------------------------------

  /**
   * A query that encodes is accepted by the response reader: the answer section starts right after the question
   * with no answers, and the question name reads back as the host less one trailing dot, exactly when it has at
   * most 127 labels.
   */
  lemma QuestionReadsBack(id: nat, host: Octets, qtype: nat, ecs: Option<EcsSubnet>)
    requires ValidName(WireName(LabelsOf(host), None))
    ensures ValidMessage(QueryMessage(id, host, qtype, ecs))
    ensures var buf := Encode(QueryMessage(id, host, qtype, ecs));
            var end := 12 + |EncodeName(WireName(LabelsOf(host), None))|;
            && StartOfAnswers(buf) == Ok(AnswerStart(end + 4, 0))
            && |buf| == end + 4 + |TailOf(ecs)|
            && NameAt(buf, 12) == if |LabelsOf(host)| <= 127 then Ok(Name(StripDot(host), end)) else Err(CompressionLoop)
  {
    hide EncodeName, NameAt, TailOf, PutU16;
    EncodedQuery(id, host, qtype, ecs);
    var m := QueryMessage(id, host, qtype, ecs);
    var buf := Encode(m);
    LocateSections(m);
    var name := WireName(LabelsOf(host), None);
    assert buf[12..12 + |EncodeName(name)|] == EncodeName(name);
    assert EncodeQuestions(m.questions[1..]) == [];
    PlainNameReadsBack(buf, 12, LabelsOf(host));
    HostIsItsLabels(host);
  }

  lemma TailEndsMessage(m: Message)
    requires ValidMessage(m)
    ensures |m.tail| <= |Encode(m)| && Encode(m)[|Encode(m)| - |m.tail|..] == m.tail
  {
    var front := EncodeHeader(m) + (EncodeQuestions(m.questions) + EncodeAnswers(m.answers));
    assert Encode(m) == front + m.tail;
  }

  /** Reads OPT data that holds one client-subnet option filling it exactly. */
  ghost function ReadClientSubnet(rdata: Octets): Option<EcsSubnet> {
    if |rdata| >= 8 && U16(rdata[0], rdata[1]) == EDNS_OPT_CLIENT_SUBNET && U16(rdata[2], rdata[3]) == |rdata| - 4
       && rdata[7] == 0
    then Some(EcsSubnet(U16(rdata[4], rdata[5]), rdata[6], rdata[8..]))
    else None
  }

  /** The record at `pos` is an OPT record that ends the packet and holds `subnet`. */
  ghost predicate EndsWithSubnet(buf: Octets, pos: nat, subnet: EcsSubnet) {
    var rr := RecordAt(buf, pos);
    && rr.Ok? && rr.value.rtype == RR_OPT && rr.value.rdataEnd == |buf|
    && ReadClientSubnet(buf[rr.value.rdataStart..]) == Some(subnet)
  }

  ghost function OptAnswer(subnet: EcsSubnet): Answer {
    Answer(WireName([], None), RR_OPT, EDNS_UDP_PAYLOAD, 0, ClientSubnetOption(subnet))
  }

  lemma OptIsARecord(subnet: EcsSubnet)
    requires 8 + |subnet.addrBytes| < 0x1_0000
    ensures ValidAnswer(OptAnswer(subnet)) && EncodeAnswer(OptAnswer(subnet)) == OptRecord(subnet)
  {
    hide PutU16, BigEndian, ClientSubnetOption;
    assert EncodeName(WireName([], None)) == [0];
  }

  lemma OptionReadsBack(subnet: EcsSubnet)
    requires subnet.family < 0x1_0000 && 8 + |subnet.addrBytes| < 0x1_0000
    ensures ReadClientSubnet(ClientSubnetOption(subnet)) == Some(subnet)
  {
    hide PutU16, U16;
    var rdata := ClientSubnetOption(subnet);
    var code, length, family :=
      PutU16(EDNS_OPT_CLIENT_SUBNET), PutU16(4 + |subnet.addrBytes|), PutU16(subnet.family);
    assert rdata[0] == code[0] && rdata[1] == code[1];
    assert rdata[2] == length[0] && rdata[3] == length[1];
    assert rdata[4] == family[0] && rdata[5] == family[1];
    assert rdata[8..] == subnet.addrBytes;
  }

  /**
   * The additional record is an OPT record that ends exactly at the end of the packet and carries back the subnet,
   * as long as its 16-bit length can hold it.
   */
  lemma SubnetReadsBack(id: nat, host: Octets, qtype: nat, subnet: EcsSubnet)
    requires ValidName(WireName(LabelsOf(host), None))
    requires subnet.family < 0x1_0000 && 8 + |subnet.addrBytes| < 0x1_0000
    ensures ValidMessage(QueryMessage(id, host, qtype, Some(subnet)))
    ensures var buf := Encode(QueryMessage(id, host, qtype, Some(subnet)));
            StartOfAnswers(buf).Ok? && EndsWithSubnet(buf, StartOfAnswers(buf).value.pos, subnet)
  {
    hide Encode, ValidMessage, ValidName, EncodeName, NameAt, PutU16, EncodeAnswer, RecordAt, OptRecord,
         ClientSubnetOption, ReadClientSubnet, StartOfAnswers, LabelsOf, StripDot;
    QuestionReadsBack(id, host, qtype, Some(subnet));
    TailEndsMessage(QueryMessage(id, host, qtype, Some(subnet)));
    OptIsARecord(subnet);
    var buf := Encode(QueryMessage(id, host, qtype, Some(subnet)));
    var pos := StartOfAnswers(buf).value.pos;
    assert pos + |OptRecord(subnet)| == |buf| && buf[pos..] == OptRecord(subnet);
    ReadEncodedAnswer(buf, pos, OptAnswer(subnet));
    OptionReadsBack(subnet);
    var start := pos + |EncodeName(OptAnswer(subnet).name)| + 10;
    assert buf[start..] == buf[start..start + |OptAnswer(subnet).rdata|] == ClientSubnetOption(subnet);
  }

  lemma SmallU16(value: nat)
    requires value < 256
    ensures PutU16(value) == [0, value]
  {}

  lemma FourZeros()
    ensures BigEndian(0, 4) == [0, 0, 0, 0]
  {
    assert BigEndian(0, 1) == [0];
    assert BigEndian(0, 2) == [0, 0];
    assert BigEndian(0, 3) == [0, 0, 0];
  }

  /** The OPT record octet by octet, up to the address. */
  lemma OptOctets(subnet: EcsSubnet)
    requires subnet.family < 256 && |subnet.addrBytes| <= 16
    ensures var n := |subnet.addrBytes|;
            OptRecord(subnet)
            == [0, 0, 41, 16, 0, 0, 0, 0, 0, 0, 8 + n, 0, 8, 0, 4 + n, 0, subnet.family, subnet.sourcePrefix, 0]
               + subnet.addrBytes
  {
    SmallU16(RR_OPT);
    SmallU16(8 + |subnet.addrBytes|);
    SmallU16(EDNS_OPT_CLIENT_SUBNET);
    SmallU16(4 + |subnet.addrBytes|);
    SmallU16(subnet.family);
    assert PutU16(EDNS_UDP_PAYLOAD) == [16, 0];
    FourZeros();
  }

  /** The header of every query: recursion desired, one question, one additional record with a subnet; class IN. */
  lemma QueryOctets(id: nat, host: Octets, qtype: nat, ecs: Option<EcsSubnet>)
    requires ValidName(WireName(LabelsOf(host), None)) && id < 0x1_0000 && qtype < 256
    ensures ValidMessage(QueryMessage(id, host, qtype, ecs))
    ensures Encode(QueryMessage(id, host, qtype, ecs)) ==
            [id / 256, id % 256, 1, 0, 0, 1, 0, 0, 0, 0, 0, if ecs.Some? then 1 else 0]
            + EncodeName(WireName(LabelsOf(host), None)) + [0, qtype, 0, 1] + TailOf(ecs)
  {
    hide EncodeName, ValidName, TailOf, LabelsOf;
    EncodedQuery(id, host, qtype, ecs);
    SmallU16(1);
    SmallU16(0);
    SmallU16(qtype);
    assert PutU16(0x0100) == [1, 0] && PutU16(id) == [id / 256, id % 256];
    var name := EncodeName(WireName(LabelsOf(host), None));
    var header: Octets := [id / 256, id % 256, 1, 0, 0, 1, 0, 0, 0, 0, 0, if ecs.Some? then 1 else 0];
    assert PutU16(id) + PutU16(0x0100) + PutU16(1) + PutU16(0) + PutU16(0) + PutU16(if ecs.Some? then 1 else 0) == header;
    assert header + name + [0, qtype] + [0, 1] == header + name + [0, qtype, 0, 1];
  }
}
