/** A reference builder for RFC 1035 messages, and the proof that the walkers read back what it wrote. */
module DnsRoundTrip {
  import opened Bytes
  import opened Wrappers
  import opened DnsName
  import opened DnsMessage

  // ---------------------------------------------------------------------------
  // The reference builder
  // ---------------------------------------------------------------------------

  /** Labels followed by the root or by a compression pointer. */
  datatype WireName = WireName(labels: seq<Octets>, pointer: Option<nat>)

  ghost predicate ValidLabel(text: Octets) { 1 <= |text| <= 63 }

  ghost predicate ValidName(name: WireName) {
    && (forall i :: 0 <= i < |name.labels| ==> ValidLabel(name.labels[i]))
    && (name.pointer.Some? ==> name.pointer.value < 0x4000)
  }

  ghost function EncodeLabel(text: Octets): Octets
    requires ValidLabel(text)
  {
    var len: Octets := [|text|];
    len + text
  }

  ghost function EncodeLabels(labels: seq<Octets>): Octets
    requires forall i :: 0 <= i < |labels| ==> ValidLabel(labels[i])
  {
    if labels == [] then [] else EncodeLabel(labels[0]) + EncodeLabels(labels[1..])
  }

  ghost function EncodeEnd(pointer: Option<nat>): (s: Octets)
    requires pointer.Some? ==> pointer.value < 0x4000
  {
    if pointer.None? then [0] else [192 + pointer.value / 256, pointer.value % 256]
  }

  ghost function EncodeName(name: WireName): Octets
    requires ValidName(name)
  {
    EncodeLabels(name.labels) + EncodeEnd(name.pointer)
  }

  datatype Question = Question(name: WireName, qtype: nat, qclass: nat)

  datatype Answer = Answer(name: WireName, rtype: nat, rclass: nat, ttl: nat, rdata: Octets)

  ghost predicate ValidAnswer(a: Answer) {
    ValidName(a.name) && a.rtype < 0x1_0000 && |a.rdata| < 0x1_0000
  }

  ghost function EncodeQuestion(q: Question): Octets
    requires ValidName(q.name)
  {
    EncodeName(q.name) + PutU16(q.qtype) + PutU16(q.qclass)
  }

  ghost function EncodeQuestions(qs: seq<Question>): Octets
    requires forall i :: 0 <= i < |qs| ==> ValidName(qs[i].name)
  {
    if qs == [] then [] else EncodeQuestion(qs[0]) + EncodeQuestions(qs[1..])
  }

  /** The ten octets between owner name and data. */
  ghost function EncodeFixed(a: Answer): (s: Octets)
    ensures |s| == 10
  {
    PutU16(a.rtype) + PutU16(a.rclass) + BigEndian(a.ttl, 4) + PutU16(|a.rdata|)
  }

  ghost function EncodeAnswer(a: Answer): Octets
    requires ValidAnswer(a)
  {
    EncodeName(a.name) + (EncodeFixed(a) + a.rdata)
  }

  ghost function EncodeAnswers(rs: seq<Answer>): Octets
    requires forall i :: 0 <= i < |rs| ==> ValidAnswer(rs[i])
  {
    if rs == [] then [] else EncodeAnswer(rs[0]) + EncodeAnswers(rs[1..])
  }

  /** A whole message; `tail` stands for the authority and additional sections or any trailing octets. */
  datatype Message = Message(id: nat, flags: nat, questions: seq<Question>, answers: seq<Answer>,
                             nscount: nat, arcount: nat, tail: Octets)

  ghost predicate ValidMessage(m: Message) {
    && |m.questions| < 0x1_0000
    && |m.answers| < 0x1_0000
    && (forall i :: 0 <= i < |m.questions| ==> ValidName(m.questions[i].name))
    && (forall i :: 0 <= i < |m.answers| ==> ValidAnswer(m.answers[i]))
  }

  ghost function EncodeHeader(m: Message): (s: Octets)
    ensures |s| == 12
  {
    PutU16(m.id) + PutU16(m.flags) + PutU16(|m.questions|) + PutU16(|m.answers|) + PutU16(m.nscount) + PutU16(m.arcount)
  }

  ghost function Encode(m: Message): Octets
    requires ValidMessage(m)
  {
    EncodeHeader(m) + (EncodeQuestions(m.questions) + (EncodeAnswers(m.answers) + m.tail))
  }

  // ---------------------------------------------------------------------------
  // What the message says, record by record
  // ---------------------------------------------------------------------------

  ghost function AddressesIn(rs: seq<Answer>): seq<IpAddr> {
    if rs == [] then [] else AddressIn(rs[0].rtype, rs[0].rdata) + AddressesIn(rs[1..])
  }

  ghost function TextsIn(rs: seq<Answer>): seq<Octets> {
    if rs == [] then []
    else (if rs[0].rtype == QTYPE_TXT then [TextOf(rs[0].rdata)] else []) + TextsIn(rs[1..])
  }

  /** TXT data as RFC 1035 section 3.3.14 writes it: each segment behind its length. */
  ghost function EncodeSegments(segments: seq<Octets>): Octets
    requires forall i :: 0 <= i < |segments| ==> |segments[i]| < 256
  {
    if segments == [] then [] else [|segments[0]|] + segments[0] + EncodeSegments(segments[1..])
  }

  ghost function Concat(segments: seq<Octets>): Octets {
    if segments == [] then [] else segments[0] + Concat(segments[1..])
  }

  ghost function ConcatEach(texts: seq<seq<Octets>>): seq<Octets> {
    if texts == [] then [] else [Concat(texts[0])] + ConcatEach(texts[1..])
  }

  /** The TXT records among `rs` are, in order, encodings of these lists of segments. */
  ghost predicate CarryTexts(rs: seq<Answer>, texts: seq<seq<Octets>>)
    decreases |rs|
  {
    if rs == [] then texts == []
    else if rs[0].rtype == QTYPE_TXT then
      && texts != []
      && (forall i :: 0 <= i < |texts[0]| ==> |texts[0][i]| < 256)
      && rs[0].rdata == EncodeSegments(texts[0])
      && CarryTexts(rs[1..], texts[1..])
    else CarryTexts(rs[1..], texts)
  }

  // ---------------------------------------------------------------------------
  // Reading back
  // ---------------------------------------------------------------------------

  /** `s` occurs in `buf` at `pos`. */
  ghost predicate At(buf: Octets, pos: nat, s: Octets) {
    pos + |s| <= |buf| && buf[pos..pos + |s|] == s
  }

  lemma AtSplit(buf: Octets, pos: nat, a: Octets, b: Octets)
    requires At(buf, pos, a + b)
    ensures At(buf, pos, a) && At(buf, pos + |a|, b)
  {
    var whole := buf[pos..pos + |a + b|];
    assert whole[..|a|] == a && whole[|a|..] == b;
    assert whole[..|a|] == buf[pos..pos + |a|];
    assert whole[|a|..] == buf[pos + |a|..pos + |a| + |b|];
  }

  lemma AtIndex(buf: Octets, pos: nat, s: Octets, i: nat)
    requires At(buf, pos, s) && i < |s|
    ensures buf[pos + i] == s[i]
  {
    assert buf[pos..pos + |s|][i] == s[i];
  }

  /** The first label and the rest of a name, one after the other. */
  lemma FirstLabelAt(buf: Octets, pos: nat, labels: seq<Octets>, pointer: Option<nat>)
    requires labels != [] && ValidName(WireName(labels, pointer))
    requires At(buf, pos, EncodeName(WireName(labels, pointer)))
    ensures ValidLabel(labels[0]) && ValidName(WireName(labels[1..], pointer))
    ensures |EncodeName(WireName(labels, pointer))| == 1 + |labels[0]| + |EncodeName(WireName(labels[1..], pointer))|
    ensures buf[pos] == |labels[0]| && At(buf, pos + 1, labels[0])
    ensures At(buf, pos + 1 + |labels[0]|, EncodeName(WireName(labels[1..], pointer)))
  {
    var first := EncodeLabel(labels[0]);
    var rest := EncodeName(WireName(labels[1..], pointer));
    assert EncodeName(WireName(labels, pointer)) == first + rest;
    AtSplit(buf, pos, first, rest);
    AtSplit(buf, pos, [|labels[0]|], labels[0]);
    AtIndex(buf, pos, first, 0);
  }

  /** One label in front of a denoted name. */
  lemma LabelDenotes(buf: Octets, pos: nat, text: Octets, rest: seq<Octets>, steps: nat)
    requires ValidLabel(text) && pos < |buf| && buf[pos] == |text| && At(buf, pos + 1, text)
    requires Denotes(buf, pos + 1 + |text|, rest, steps)
    ensures Denotes(buf, pos, [text] + rest, 1 + steps)
  {
    assert ([text] + rest)[1..] == rest;
  }

  lemma {:induction false} SkipEncodedName(buf: Octets, pos: nat, labels: seq<Octets>, pointer: Option<nat>)
    requires ValidName(WireName(labels, pointer)) && At(buf, pos, EncodeName(WireName(labels, pointer)))
    ensures Skip(buf, pos) == Ok(pos + |EncodeName(WireName(labels, pointer))|)
    decreases |labels|
  {
    if labels != [] {
      hide EncodeName, ValidName;
      FirstLabelAt(buf, pos, labels, pointer);
      SkipEncodedName(buf, pos + 1 + |labels[0]|, labels[1..], pointer);
    } else {
      AtIndex(buf, pos, EncodeName(WireName(labels, pointer)), 0);
    }
  }

  lemma RootDenotes(buf: Octets, pos: nat)
    requires At(buf, pos, EncodeName(WireName([], None)))
    ensures Denotes(buf, pos, [], 1)
  {
    AtIndex(buf, pos, EncodeName(WireName([], None)), 0);
  }

  /** A pointer-free name denotes its own labels, in one step more than it has labels. */
  lemma {:induction false} PlainNameDenotes(buf: Octets, pos: nat, labels: seq<Octets>)
    requires ValidName(WireName(labels, None)) && At(buf, pos, EncodeName(WireName(labels, None)))
    ensures Denotes(buf, pos, labels, |labels| + 1)
    decreases |labels|
  {
    hide EncodeName, ValidName, At, Denotes;
    if labels == [] {
      RootDenotes(buf, pos);
    } else {
      FirstLabelAt(buf, pos, labels, None);
      PlainNameDenotes(buf, pos + 1 + |labels[0]|, labels[1..]);
      LabelDenotes(buf, pos, labels[0], labels[1..], |labels|);
      assert labels == [labels[0]] + labels[1..];
    }
  }

  lemma PointerDenotes(buf: Octets, pos: nat, target: nat, rest: seq<Octets>, steps: nat)
    requires ValidName(WireName([], Some(target))) && At(buf, pos, EncodeName(WireName([], Some(target))))
    requires Denotes(buf, target, rest, steps)
    ensures Denotes(buf, pos, rest, 1 + steps)
  {
    var encoded := EncodeName(WireName([], Some(target)));
    AtIndex(buf, pos, encoded, 0);
    AtIndex(buf, pos, encoded, 1);
    assert OffsetOf(buf[pos], buf[pos + 1]) == target;
  }

  /** Labels ending in a pointer denote themselves followed by whatever the target denotes. */
  lemma {:induction false} PointedNameDenotes(buf: Octets, pos: nat, labels: seq<Octets>, target: nat,
                                              rest: seq<Octets>, steps: nat)
    requires ValidName(WireName(labels, Some(target))) && At(buf, pos, EncodeName(WireName(labels, Some(target))))
    requires Denotes(buf, target, rest, steps)
    ensures Denotes(buf, pos, labels + rest, |labels| + 1 + steps)
    decreases |labels|
  {
    hide EncodeName, ValidName, At, Denotes;
    if labels == [] {
      PointerDenotes(buf, pos, target, rest, steps);
      assert labels + rest == rest;
    } else {
      FirstLabelAt(buf, pos, labels, Some(target));
      PointedNameDenotes(buf, pos + 1 + |labels[0]|, labels[1..], target, rest, steps);
      LabelDenotes(buf, pos, labels[0], labels[1..] + rest, |labels| + steps);
      assert labels + rest == [labels[0]] + (labels[1..] + rest);
    }
  }

  /** The labels of a wire name, its pointer resolved to `rest` in `steps` steps (none without a pointer). */
  lemma NameDenotes(buf: Octets, pos: nat, name: WireName, rest: seq<Octets>, steps: nat)
    requires ValidName(name) && At(buf, pos, EncodeName(name))
    requires name.pointer.None? ==> rest == [] && steps == 0
    requires name.pointer.Some? ==> Denotes(buf, name.pointer.value, rest, steps)
    ensures Denotes(buf, pos, name.labels + rest, |name.labels| + 1 + steps)
  {
    hide Denotes, At, EncodeName, ValidName;
    if name.pointer.None? {
      PlainNameDenotes(buf, pos, name.labels);
      assert name.labels + rest == name.labels;
    } else {
      PointedNameDenotes(buf, pos, name.labels, name.pointer.value, rest, steps);
    }
  }

  /** A chain longer than the budget ends in the loop error and no other. */
  lemma {:induction false} LongChainRunsOut(buf: Octets, pos: nat, labels: seq<Octets>, steps: nat, fuel: nat)
    requires Denotes(buf, pos, labels, steps) && fuel < steps
    ensures Follow(buf, pos, fuel) == Err(CompressionLoop)
    decreases fuel
  {
    hide LabelTag, PointerTarget;
    if fuel > 0 {
      var len := buf[pos];
      if 0 < len < 64 {
        LongChainRunsOut(buf, pos + 1 + len, labels[1..], steps - 1, fuel - 1);
      } else if len >= 192 {
        LongChainRunsOut(buf, OffsetOf(len, buf[pos + 1]), labels, steps - 1, fuel - 1);
      }
    }
  }

  /** A denoted name is read back exactly when its chain of length octets fits the 128-step budget. */
  lemma DenotedNameReadsBack(buf: Octets, pos: nat, labels: seq<Octets>, steps: nat)
    requires Denotes(buf, pos, labels, steps)
    ensures steps <= 128 ==> Skip(buf, pos).Ok? && NameAt(buf, pos) == Ok(Name(Dotted(labels), Skip(buf, pos).value))
    ensures steps > 128 ==> NameAt(buf, pos) == Err(CompressionLoop)
  {
    if steps <= 128 {
      FollowIsComplete(buf, pos, labels, steps, MAX_STEPS);
      FollowedNamesCanBeSkipped(buf, pos, MAX_STEPS);
    } else {
      LongChainRunsOut(buf, pos, labels, steps, MAX_STEPS);
    }
  }

  /** A pointer-free name is read back exactly when it has at most 127 labels. */
  lemma PlainNameReadsBack(buf: Octets, pos: nat, labels: seq<Octets>)
    requires ValidName(WireName(labels, None)) && At(buf, pos, EncodeName(WireName(labels, None)))
    ensures |labels| <= 127 ==>
              NameAt(buf, pos) == Ok(Name(Dotted(labels), pos + |EncodeName(WireName(labels, None))|))
    ensures |labels| > 127 ==> NameAt(buf, pos) == Err(CompressionLoop)
  {
    PlainNameDenotes(buf, pos, labels);
    SkipEncodedName(buf, pos, labels, None);
    DenotedNameReadsBack(buf, pos, labels, |labels| + 1);
  }

  lemma SkipEncodedQuestion(buf: Octets, pos: nat, q: Question)
    requires ValidName(q.name) && At(buf, pos, EncodeQuestion(q))
    ensures Skip(buf, pos).Ok? && Skip(buf, pos).value + 4 == pos + |EncodeQuestion(q)| <= |buf|
  {
    hide Skip, EncodeName, ValidName;
    assert EncodeQuestion(q) == EncodeName(q.name) + (PutU16(q.qtype) + PutU16(q.qclass));
    AtSplit(buf, pos, EncodeName(q.name), PutU16(q.qtype) + PutU16(q.qclass));
    SkipEncodedName(buf, pos, q.name.labels, q.name.pointer);
  }

  lemma {:induction false} SkipEncodedQuestions(buf: Octets, pos: nat, qs: seq<Question>)
    requires forall i :: 0 <= i < |qs| ==> ValidName(qs[i].name)
    requires At(buf, pos, EncodeQuestions(qs))
    ensures AfterQuestions(buf, pos, |qs|) == Ok(pos + |EncodeQuestions(qs)|)
    decreases |qs|
  {
    hide Skip, EncodeQuestion, ValidName;
    if qs != [] {
      AtSplit(buf, pos, EncodeQuestion(qs[0]), EncodeQuestions(qs[1..]));
      SkipEncodedQuestion(buf, pos, qs[0]);
      SkipEncodedQuestions(buf, pos + |EncodeQuestion(qs[0])|, qs[1..]);
    }
  }

  /** TYPE and RDLENGTH stand in the first two and the last two of the ten fixed octets. */
  lemma FixedFields(a: Answer)
    requires a.rtype < 0x1_0000 && |a.rdata| < 0x1_0000
    ensures var f := EncodeFixed(a); U16(f[0], f[1]) == a.rtype && U16(f[8], f[9]) == |a.rdata|
  {
    hide BigEndian, PutU16, U16;
    var f, rtype, length := EncodeFixed(a), PutU16(a.rtype), PutU16(|a.rdata|);
    assert f[0] == rtype[0] && f[1] == rtype[1];
    assert f[8] == length[0] && f[9] == length[1];
  }

  lemma ReadEncodedAnswer(buf: Octets, pos: nat, a: Answer)
    requires ValidAnswer(a) && At(buf, pos, EncodeAnswer(a))
    ensures var start := pos + |EncodeName(a.name)| + 10;
            && RecordAt(buf, pos) == Ok(Record(a.rtype, start, start + |a.rdata|))
            && start + |a.rdata| == pos + |EncodeAnswer(a)| <= |buf|
            && buf[start..start + |a.rdata|] == a.rdata
  {
    hide Skip, EncodeName, EncodeFixed, U16, ValidName;
    FixedFields(a);
    AtSplit(buf, pos, EncodeName(a.name), EncodeFixed(a) + a.rdata);
    SkipEncodedName(buf, pos, a.name.labels, a.name.pointer);
    var p := pos + |EncodeName(a.name)|;
    AtSplit(buf, p, EncodeFixed(a), a.rdata);
    AtIndex(buf, p, EncodeFixed(a), 0);
    AtIndex(buf, p, EncodeFixed(a), 1);
    AtIndex(buf, p, EncodeFixed(a), 8);
    AtIndex(buf, p, EncodeFixed(a), 9);
  }

  lemma {:induction false} WalkEncodedAnswers(buf: Octets, pos: nat, rs: seq<Answer>)
    requires forall i :: 0 <= i < |rs| ==> ValidAnswer(rs[i])
    requires At(buf, pos, EncodeAnswers(rs))
    ensures AddressesFrom(buf, pos, |rs|) == Ok(AddressesIn(rs))
    ensures TextsFrom(buf, pos, |rs|) == Ok(TextsIn(rs))
    decreases |rs|
  {
    hide RecordAt, EncodeAnswer, TextOf, AddressIn;
    if rs != [] {
      AtSplit(buf, pos, EncodeAnswer(rs[0]), EncodeAnswers(rs[1..]));
      ReadEncodedAnswer(buf, pos, rs[0]);
      WalkEncodedAnswers(buf, pos + |EncodeAnswer(rs[0])|, rs[1..]);
    }
  }

  /** The first PTR answer is found wherever it stands, and the name its data denotes is returned. */
  lemma {:induction false} WalkToEncodedPtr(buf: Octets, pos: nat, rs: seq<Answer>, k: nat)
    requires forall i :: 0 <= i < |rs| ==> ValidAnswer(rs[i])
    requires At(buf, pos, EncodeAnswers(rs))
    requires k < |rs| && rs[k].rtype == QTYPE_PTR && forall i :: 0 <= i < k ==> rs[i].rtype != QTYPE_PTR
    ensures exists at: nat :: At(buf, at, rs[k].rdata) && FirstPtrFrom(buf, pos, |rs|) == TargetAt(buf, at)
    decreases k
  {
    hide RecordAt, EncodeAnswer, NameAt;
    AtSplit(buf, pos, EncodeAnswer(rs[0]), EncodeAnswers(rs[1..]));
    ReadEncodedAnswer(buf, pos, rs[0]);
    if k > 0 {
      WalkToEncodedPtr(buf, pos + |EncodeAnswer(rs[0])|, rs[1..], k - 1);
    } else {
      assert At(buf, pos + |EncodeName(rs[0].name)| + 10, rs[0].rdata);
    }
  }

  /** QDCOUNT and ANCOUNT stand in the third and fourth pairs of header octets. */
  lemma HeaderCounts(m: Message)
    requires ValidMessage(m)
    ensures var h := EncodeHeader(m); U16(h[4], h[5]) == |m.questions| && U16(h[6], h[7]) == |m.answers|
  {
    hide PutU16, U16;
    var h, qdcount, ancount := EncodeHeader(m), PutU16(|m.questions|), PutU16(|m.answers|);
    assert h[4] == qdcount[0] && h[5] == qdcount[1];
    assert h[6] == ancount[0] && h[7] == ancount[1];
  }

  lemma ReadHeader(m: Message)
    requires ValidMessage(m)
    ensures var buf := Encode(m);
            && |buf| >= 12
            && U16(buf[4], buf[5]) == |m.questions| && U16(buf[6], buf[7]) == |m.answers|
            && At(buf, 12, EncodeQuestions(m.questions) + (EncodeAnswers(m.answers) + m.tail))
  {
    hide EncodeHeader, EncodeQuestions, EncodeAnswers, U16;
    var buf, header := Encode(m), EncodeHeader(m);
    assert buf[0..|buf|] == buf;
    AtSplit(buf, 0, header, EncodeQuestions(m.questions) + (EncodeAnswers(m.answers) + m.tail));
    AtIndex(buf, 0, header, 4);
    AtIndex(buf, 0, header, 5);
    AtIndex(buf, 0, header, 6);
    AtIndex(buf, 0, header, 7);
    HeaderCounts(m);
  }

  lemma LocateSections(m: Message)
    requires ValidMessage(m)
    ensures var start := 12 + |EncodeQuestions(m.questions)|;
            && StartOfAnswers(Encode(m)) == Ok(AnswerStart(start, |m.answers|))
            && At(Encode(m), start, EncodeAnswers(m.answers))
  {
    hide Encode, EncodeQuestions, EncodeAnswers;
    var buf := Encode(m);
    ReadHeader(m);
    AtSplit(buf, 12, EncodeQuestions(m.questions), EncodeAnswers(m.answers) + m.tail);
    SkipEncodedQuestions(buf, 12, m.questions);
    AtSplit(buf, 12 + |EncodeQuestions(m.questions)|, EncodeAnswers(m.answers), m.tail);
  }

  /** Every well-formed message is read back exactly: its addresses in order, and the text of each TXT record. */
  lemma AnswersReadBack(m: Message)
    requires ValidMessage(m)
    ensures Addresses(Encode(m)) == Ok(AddressesIn(m.answers))
    ensures Texts(Encode(m)) == Ok(TextsIn(m.answers))
  {
    hide Encode, EncodeQuestions;
    LocateSections(m);
    WalkEncodedAnswers(Encode(m), 12 + |EncodeQuestions(m.questions)|, m.answers);
  }

  /** Segments written behind their lengths are read back run together. */
  lemma {:induction false} SegmentsReadBack(segments: seq<Octets>)
    requires forall i :: 0 <= i < |segments| ==> |segments[i]| < 256
    ensures TextOf(EncodeSegments(segments)) == Concat(segments)
  {
    if segments != [] {
      var rdata := EncodeSegments(segments);
      SegmentsReadBack(segments[1..]);
      assert rdata[1..1 + |segments[0]|] == segments[0];
      assert rdata[1 + |segments[0]|..] == EncodeSegments(segments[1..]);
    }
  }

  lemma {:induction false} CarriedTexts(rs: seq<Answer>, texts: seq<seq<Octets>>)
    requires CarryTexts(rs, texts)
    ensures TextsIn(rs) == ConcatEach(texts)
    decreases |rs|
  {
    hide TextOf, EncodeSegments, Concat;
    if rs != [] {
      if rs[0].rtype == QTYPE_TXT {
        SegmentsReadBack(texts[0]);
        CarriedTexts(rs[1..], texts[1..]);
      } else {
        CarriedTexts(rs[1..], texts);
      }
    }
  }

  /** TXT lookups on every well-formed message give each record's segments run together, in order. */
  lemma TxtReadsBack(m: Message, texts: seq<seq<Octets>>)
    requires ValidMessage(m) && CarryTexts(m.answers, texts)
    ensures Texts(Encode(m)) == Ok(ConcatEach(texts))
  {
    hide Encode, Texts, CarryTexts, TextsIn, ConcatEach;
    AnswersReadBack(m);
    CarriedTexts(m.answers, texts);
  }

  /**
   * A PTR lookup yields the dotted form of the first PTR target, compressed or not, exactly when the whole chain
   * of length octets (its own labels, the pointer, the target's chain) fits the name budget.
   */
  lemma PtrReadsBack(m: Message, k: nat, name: WireName, rest: seq<Octets>, steps: nat)
    requires ValidMessage(m)
    requires k < |m.answers| && m.answers[k].rtype == QTYPE_PTR
    requires forall i :: 0 <= i < k ==> m.answers[i].rtype != QTYPE_PTR
    requires ValidName(name) && m.answers[k].rdata == EncodeName(name)
    requires name.pointer.None? ==> rest == [] && steps == 0
    requires name.pointer.Some? ==> Denotes(Encode(m), name.pointer.value, rest, steps)
    ensures FirstPtr(Encode(m)) == if |name.labels| + 1 + steps <= 128 then Ok(Some(Dotted(name.labels + rest)))
                                   else Err(CompressionLoop)
  {
    hide Encode, EncodeQuestions, EncodeAnswers, NameAt, EncodeName, Denotes, ValidName, Skip, At, FirstPtrFrom;
    LocateSections(m);
    var buf := Encode(m);
    WalkToEncodedPtr(buf, 12 + |EncodeQuestions(m.questions)|, m.answers, k);
    var at: nat :| At(buf, at, m.answers[k].rdata)
                   && FirstPtrFrom(buf, 12 + |EncodeQuestions(m.questions)|, |m.answers|) == TargetAt(buf, at);
    NameDenotes(buf, at, name, rest, steps);
    DenotedNameReadsBack(buf, at, name.labels + rest, |name.labels| + 1 + steps);
  }

  /** 127 labels of one octet: with its lengths and root a name of exactly 255 octets, the longest RFC 1035 allows. */
  ghost const LONGEST: WireName := WireName(Repeat([0x61], 127), None)

  /** A PTR answer whose data is a pointer back to the name in question. */
  ghost function AnswerBehindPointer(name: WireName): (m: Message)
    requires ValidName(name)
    ensures ValidMessage(m)
  {
    var back := WireName([], Some(12));
    Message(0, 0x8180, [Question(name, QTYPE_PTR, 1)], [Answer(back, QTYPE_PTR, 1, 0, EncodeName(back))], 0, 0, [])
  }

  lemma {:induction false} OneOctetLabelsLength(labels: seq<Octets>)
    requires forall i :: 0 <= i < |labels| ==> |labels[i]| == 1
    ensures |EncodeLabels(labels)| == 2 * |labels|
  {
    if labels != [] {
      OneOctetLabelsLength(labels[1..]);
    }
  }

  /** The name in question stands right behind the header. */
  lemma QuestionNameAt(m: Message)
    requires ValidMessage(m) && m.questions != []
    ensures At(Encode(m), 12, EncodeName(m.questions[0].name))
  {
    hide Encode, EncodeName, PutU16;
    var q, rest := m.questions[0], EncodeAnswers(m.answers) + m.tail;
    ReadHeader(m);
    AtSplit(Encode(m), 12, EncodeQuestions(m.questions), rest);
    AtSplit(Encode(m), 12, EncodeQuestion(q), EncodeQuestions(m.questions[1..]));
    assert EncodeQuestion(q) == EncodeName(q.name) + (PutU16(q.qtype) + PutU16(q.qclass));
    AtSplit(Encode(m), 12, EncodeName(q.name), PutU16(q.qtype) + PutU16(q.qclass));
  }

  lemma LongestIsLegal()
    ensures ValidName(LONGEST) && |EncodeName(LONGEST)| == 255 && |LONGEST.labels| == 127 && LONGEST.pointer.None?
  {
    hide EncodeLabels;
    OneOctetLabelsLength(LONGEST.labels);
  }

  ghost predicate ReadButNotBehindPointer(name: WireName)
    requires ValidName(name)
  {
    var buf := Encode(AnswerBehindPointer(name));
    && NameAt(buf, 12) == Ok(Name(Dotted(name.labels), 12 + |EncodeName(name)|))
    && FirstPtr(buf) == Err(CompressionLoop)
  }

  /** That name is read where it stands, but the same name one pointer away takes 129 steps and is refused. */
  lemma LongestNameBehindPointer()
    ensures ValidName(LONGEST) && |EncodeName(LONGEST)| == 255 && ReadButNotBehindPointer(LONGEST)
  {
    hide Encode, NameAt, FirstPtr, Denotes, Dotted, PutU16, At, ValidMessage, EncodeName, EncodeLabels, Repeat;
    LongestIsLegal();
    var m := AnswerBehindPointer(LONGEST);
    var buf := Encode(m);
    QuestionNameAt(m);
    PlainNameReadsBack(buf, 12, LONGEST.labels);
    PlainNameDenotes(buf, 12, LONGEST.labels);
    PtrReadsBack(m, 0, WireName([], Some(12)), LONGEST.labels, 128);
  }
}
