/**
 Received packets: the parsing state of `struct mdns_packet` and the loops of
 `mdns_handle_response` (network/lwip_mdns/mdns_server.c), and the round trip of whole
 packets.
 */
module MdnsIn {
  import opened Basics
  import opened MdnsName
  import opened MdnsDomain
  import opened MdnsCompress
  import opened MdnsLayout
  import opened MdnsOut

  // ----- all questions, then all answers -----

  function ReadQuestions(p: seq<byte>, off: nat, count: nat): Option<(seq<Question>, nat)>
    decreases count
  {
    if count == 0 then Some(([], off)) else
    match ReadQuestionAt(p, off)
    case None => None
    case Some((q, next)) =>
      match ReadQuestions(p, next, count - 1)
      case None => None
      case Some((qs, end)) => Some(([q] + qs, end))
  }

  function ReadAnswers(p: seq<byte>, off: nat, count: nat): Option<(seq<Answer>, nat)>
    decreases count
  {
    if count == 0 then Some(([], off)) else
    match ReadAnswerAt(p, off)
    case None => None
    case Some((a, next)) =>
      match ReadAnswers(p, next, count - 1)
      case None => None
      case Some((rest, end)) => Some(([a] + rest, end))
  }

  // ----- the round trip -----

  // The name at the head of a record takes at most five jumps.
  ghost predicate Readable(e: Entry) {
    e.head.s.jumps <= 5
  }

  ghost predicate SameQuestion(q: Question, e: Entry) {
    (q.info, q.unicast) == InfoOf(e.head)
  }

  ghost predicate SameAnswer(p: seq<byte>, a: Answer, e: Entry, next: nat) {
    e.rdata.Some? && (a.info, a.cacheFlush) == InfoOf(e.head) && SameRdata(p, a, e.rdata.value, next)
  }

  // The records from i up to n are what the reader makes of them, and there is a reading if all are readable.
  lemma {:induction false} QuestionsRead(p: seq<byte>, log: seq<Entry>, end: nat, i: nat, nq: nat)
    requires EntriesAt(p, log, end) && i <= nq <= |log|
    requires forall k :: i <= k < nq ==> FieldsFit(log[k]) && log[k].rdata.None?
    ensures var r := ReadQuestions(p, StartOf(log, i, end), nq - i);
            && (r.Some? <==> forall k :: i <= k < nq ==> Readable(log[k]))
            && (r.Some? ==>
                 && r.value.1 == StartOf(log, nq, end) && |r.value.0| == nq - i
                 && forall k :: i <= k < nq ==> SameQuestion(r.value.0[k - i], log[k]))
    decreases nq - i
  {
    hide EntryAt, ReadQuestionAt, InfoOf, FieldsFit;
    if i < nq {
      assert Placed(p, log, i, end);
      QuestionReads(p, log[i], StartOf(log, i + 1, end));
      QuestionsRead(p, log, end, i + 1, nq);
    }
  }

  lemma {:induction false} AnswersRead(p: seq<byte>, log: seq<Entry>, end: nat, i: nat)
    requires EntriesAt(p, log, end) && i <= |log| && end < 0x10000
    requires forall k :: i <= k < |log| ==> FieldsFit(log[k]) && log[k].rdata.Some?
    ensures var r := ReadAnswers(p, StartOf(log, i, end), |log| - i);
            && (r.Some? <==> forall k :: i <= k < |log| ==> Readable(log[k]))
            && (r.Some? ==>
                 && r.value.1 == end && |r.value.0| == |log| - i
                 && forall k :: i <= k < |log| ==> SameAnswer(p, r.value.0[k - i], log[k], StartOf(log, k + 1, end)))
    decreases |log| - i
  {
    hide EntryAt, ReadAnswerAt, InfoOf, FieldsFit, SameRdata;
    if i < |log| {
      assert Placed(p, log, i, end);
      AnswerReads(p, log[i], StartOf(log, i + 1, end));
      AnswersRead(p, log, end, i + 1);
    }
  }

  // Questions, then answers, with fields that fit.
  ghost predicate Proper(log: seq<Entry>, nq: nat) {
    nq <= |log| && forall k :: 0 <= k < |log| ==> FieldsFit(log[k]) && (log[k].rdata.None? <==> k < nq)
  }

  // All that the reader makes of the packet: the same questions and answers in the same order.
  ghost predicate SameRecords(p: seq<byte>, log: seq<Entry>, end: nat, nq: nat, qs: seq<Question>, ans: seq<Answer>) {
    && |qs| == nq <= |log| && |ans| == |log| - nq
    && (forall k :: 0 <= k < nq ==> SameQuestion(qs[k], log[k]))
    && (forall k :: nq <= k < |log| ==> SameAnswer(p, ans[k - nq], log[k], StartOf(log, k + 1, end)))
  }

  // `ReadAll` on a packet
  function ReadPacket(p: seq<byte>, nq: nat, na: nat): Option<(seq<Question>, seq<Answer>, nat)> {
    match ReadQuestions(p, DNS_HEADER_SIZE, nq)
    case None => None
    case Some((qs, at)) =>
      match ReadAnswers(p, at, na)
      case None => None
      case Some((ans, end)) => Some((qs, ans, end))
  }

  /** A packet of questions followed by answers, cut at the write offset as it is for sending,
      reads back as the same questions and answers in the same order, if and only if every name at the
      head of a record takes at most five jumps. */
  lemma PacketReads(p: seq<byte>, log: seq<Entry>, end: nat, nq: nat)
    requires EntriesAt(p, log, end) && Proper(log, nq) && end <= |p| && end < 0x10000
    ensures var r := ReadPacket(p[..end], nq, |log| - nq);
            && (r.Some? <==> forall k :: 0 <= k < |log| ==> Readable(log[k]))
            && (r.Some? ==> r.value.2 == end && SameRecords(p[..end], log, end, nq, r.value.0, r.value.1))
  {
    hide EntryAt, SameQuestion, SameAnswer, Readable, ReadQuestions, ReadAnswers;
    var sent := p[..end];
    EntriesFrame(p, sent, log, end);
    QuestionsRead(sent, log, end, 0, nq);
    if ReadQuestions(sent, DNS_HEADER_SIZE, nq).Some? {
      AnswersRead(sent, log, end, nq);
      forall k | 0 <= k < nq
        ensures SameQuestion(ReadQuestions(sent, DNS_HEADER_SIZE, nq).value.0[k], log[k])
      {
        assert k - 0 == k;
      }
    }
  }

  // ----- names that are never too deep -----

  ghost predicate FewLabels(n: seq<byte>) {
    WellFormed(n, 0) && Labels(n, 0) <= 5
  }

  // All names of a record, the one in its data included, have at most five labels.
  ghost predicate ShortNames(e: Entry) {
    FewLabels(e.head.s.name) && (e.rdata.Some? && e.rdata.value.name.Some? ==> FewLabels(e.rdata.value.name.value.name))
  }

  /** Names of at most five labels never need more than five jumps, whatever else is in the packet. */
  lemma FewLabelsReadable(p: seq<byte>, e: Entry, next: nat)
    requires EntryAt(p, e, next) && ShortNames(e)
    ensures Readable(e)
    ensures e.rdata.Some? && e.rdata.value.name.Some? ==> e.rdata.value.name.value.jumps <= MAX_JUMPS
  {
    hide Denotes, Within, WellFormed, Labels, End;
    TightJumps(p, e.at, e.head.s.name, 0, e.head.s.jumps);
    if e.rdata.Some? && e.rdata.value.name.Some? {
      var s := e.rdata.value.name.value;
      TightJumps(p, End(p, e.at) + 4 + 6 + |e.rdata.value.data|, s.name, 0, s.jumps);
    }
  }

  // The name in the data of an answer is what was written there.
  ghost predicate SameTarget(p: seq<byte>, a: Answer, e: Entry, next: nat) {
    e.rdata.Some? && e.rdata.value.name.Some? ==>
      ReadName(p, a.rdOffset + |e.rdata.value.data|) == Read(e.rdata.value.name.value.name, next)
  }

  /** Packets round-trip: if all names that were added, at the head of records and in their data, have at
      most five labels, all records are read back, with the names in their data. */
  lemma ShortNamesRead(p: seq<byte>, log: seq<Entry>, end: nat, nq: nat)
    requires EntriesAt(p, log, end) && Proper(log, nq) && end <= |p| && end < 0x10000
    requires forall k :: 0 <= k < |log| ==> ShortNames(log[k])
    ensures var r := ReadPacket(p[..end], nq, |log| - nq);
            && r.Some? && r.value.2 == end && SameRecords(p[..end], log, end, nq, r.value.0, r.value.1)
            && forall k :: nq <= k < |log| ==> SameTarget(p[..end], r.value.1[k - nq], log[k], StartOf(log, k + 1, end))
  {
    hide EntryAt, ReadPacket, InfoOf, FieldsFit, ShortNames, ReadName, StartOf;
    forall k | 0 <= k < |log| ensures Readable(log[k]) {
      assert Placed(p, log, k, end);
      FewLabelsReadable(p, log[k], StartOf(log, k + 1, end));
    }
    PacketReads(p, log, end, nq);
    var r := ReadPacket(p[..end], nq, |log| - nq).value;
    forall k | nq <= k < |log| ensures SameTarget(p[..end], r.1[k - nq], log[k], StartOf(log, k + 1, end)) {
      assert Placed(p, log, k, end);
      FewLabelsReadable(p, log[k], StartOf(log, k + 1, end));
      assert SameAnswer(p[..end], r.1[k - nq], log[k], StartOf(log, k + 1, end));
    }
  }

  // ----- the parsing state -----

  class InPacket {
    const pbuf: array<byte>
    var parseOffset: nat
    var questionsLeft: nat
    var answersLeft: nat

    ghost predicate Valid()
      reads this
    {
      pbuf.Length + 1 < READNAME_ERROR
    }

    constructor (pbuf: array<byte>, questions: nat, answers: nat)
      requires pbuf.Length + 1 < READNAME_ERROR
      ensures Valid() && this.pbuf == pbuf && parseOffset == DNS_HEADER_SIZE
      ensures questionsLeft == questions && answersLeft == answers
    {
      this.pbuf := pbuf;
      parseOffset := DNS_HEADER_SIZE;
      questionsLeft := questions;
      answersLeft := answers;
    }

    // `mdns_read_rr_info`
    method ReadRr() returns (err: Err, info: RrInfo)
      requires Valid() && parseOffset <= pbuf.Length
      modifies this`parseOffset
      ensures err.ERR_OK? <==> ReadRrInfo(pbuf[..], old(parseOffset)).Some?
      ensures err.ERR_OK? ==> ReadRrInfo(pbuf[..], old(parseOffset)) == Some((info, parseOffset))
    {
      info := RrInfo([], 0, 0);
      var domain := new Domain();
      parseOffset := ReadNameInto(pbuf, parseOffset, domain);
      if parseOffset == READNAME_ERROR {
        return ERR_VAL, info;
      }
      if parseOffset + 2 > pbuf.Length {
        return ERR_VAL, info;
      }
      var typ := U16At(pbuf[..], parseOffset);
      parseOffset := parseOffset + 2;
      if parseOffset + 2 > pbuf.Length {
        return ERR_VAL, info;
      }
      var klass := U16At(pbuf[..], parseOffset);
      parseOffset := parseOffset + 2;
      return ERR_OK, RrInfo(domain.name[..domain.length], typ, klass);
    }

    // `mdns_read_question`
    method ReadQuestion() returns (err: Err, q: Question)
      requires Valid()
      modifies this`parseOffset, this`questionsLeft
      ensures err.ERR_OK? <==> old(questionsLeft) > 0 && ReadQuestionAt(pbuf[..], old(parseOffset)).Some?
      ensures err.ERR_OK? ==>
                ReadQuestionAt(pbuf[..], old(parseOffset)) == Some((q, parseOffset)) && questionsLeft == old(questionsLeft) - 1
      ensures err.ERR_OK? <==>
                && old(questionsLeft) > 0 && old(parseOffset) <= pbuf.Length
                && ReadName(pbuf[..], old(parseOffset)).Read? && ReadName(pbuf[..], old(parseOffset)).next + 4 <= pbuf.Length
      ensures err.ERR_OK? ==> QuestionBytes(pbuf[..], old(parseOffset), q, parseOffset)
    {
      hide ReadName, QuestionBytes, ReadRrInfo, SplitClass;
      QuestionInBytes(pbuf[..], parseOffset);
      q := Question(RrInfo([], 0, 0), false);
      if pbuf.Length < parseOffset {
        return ERR_VAL, q;
      }
      if questionsLeft > 0 {
        questionsLeft := questionsLeft - 1;
        var info;
        err, info := ReadRr();
        if err == ERR_OK {
          var (i, flag) := SplitClass(info);
          q := Question(i, flag);
        }
        return;
      }
      return ERR_VAL, q;
    }

    // `mdns_read_answer`: all questions have to be read before.
    method ReadAnswer() returns (err: Err, a: Answer)
      requires Valid()
      modifies this`parseOffset, this`answersLeft
      ensures err.ERR_OK? <==>
                questionsLeft == 0 && old(answersLeft) > 0 && ReadAnswerAt(pbuf[..], old(parseOffset)).Some?
      ensures err.ERR_OK? ==>
                ReadAnswerAt(pbuf[..], old(parseOffset)) == Some((a, parseOffset)) && answersLeft == old(answersLeft) - 1
      ensures err.ERR_OK? <==>
                && questionsLeft == 0 && old(answersLeft) > 0 && old(parseOffset) <= pbuf.Length
                && ReadName(pbuf[..], old(parseOffset)).Read? && ReadName(pbuf[..], old(parseOffset)).next + 10 <= pbuf.Length
      ensures err.ERR_OK? ==> AnswerBytes(pbuf[..], old(parseOffset), a, parseOffset)
    {
      hide ReadRrInfo, SplitClass, U16At, U32At, ReadName, AnswerBytes;
      AnswerInBytes(pbuf[..], parseOffset);
      a := Answer(RrInfo([], 0, 0), false, 0, 0, 0);
      if questionsLeft > 0 || pbuf.Length < parseOffset {
        return ERR_VAL, a;
      }
      if answersLeft > 0 {
        answersLeft := answersLeft - 1;
        var info;
        err, info := ReadRr();
        if err != ERR_OK {
          return;
        }
        var (i, flag) := SplitClass(info);
        if parseOffset + 4 > pbuf.Length {
          return ERR_VAL, a;
        }
        var ttl := U32At(pbuf[..], parseOffset);
        parseOffset := parseOffset + 4;
        if parseOffset + 2 > pbuf.Length {
          return ERR_VAL, a;
        }
        var rdLength := U16At(pbuf[..], parseOffset);
        parseOffset := parseOffset + 2;
        a := Answer(i, flag, ttl, rdLength, parseOffset);
        parseOffset := (parseOffset + rdLength) % 0x10000;
        return ERR_OK, a;
      }
      return ERR_VAL, a;
    }

    // The two loops of `mdns_handle_response`: everything in the packet, or a parse error.
    method ReadAll() returns (ok: bool, qs: seq<Question>, ans: seq<Answer>)
      requires Valid()
      modifies this
      ensures ok <==>
                && ReadQuestions(pbuf[..], old(parseOffset), old(questionsLeft)).Some?
                && ReadAnswers(pbuf[..], ReadQuestions(pbuf[..], old(parseOffset), old(questionsLeft)).value.1, old(answersLeft)).Some?
      ensures ok ==>
                && qs == ReadQuestions(pbuf[..], old(parseOffset), old(questionsLeft)).value.0
                && ReadAnswers(pbuf[..], ReadQuestions(pbuf[..], old(parseOffset), old(questionsLeft)).value.1, old(answersLeft))
                   == Some((ans, parseOffset))
    {
      hide ReadQuestionAt, ReadAnswerAt;
      qs, ans := [], [];
      ghost var p, wantQ := pbuf[..], ReadQuestions(pbuf[..], parseOffset, questionsLeft);
      PrependNil(wantQ);
      while questionsLeft > 0
        invariant pbuf[..] == p && answersLeft == old(answersLeft)
        invariant wantQ == Prepend(qs, ReadQuestions(p, parseOffset, questionsLeft))
        decreases questionsLeft
      {
        var err, q := ReadQuestion();
        if err != ERR_OK {
          return false, qs, ans;
        }
        PrependStep(qs, q, ReadQuestions(p, parseOffset, questionsLeft));
        qs := qs + [q];
      }
      assert qs + [] == qs;
      ghost var wantA := ReadAnswers(p, parseOffset, answersLeft);
      PrependNil(wantA);
      while answersLeft > 0
        invariant pbuf[..] == p && questionsLeft == 0
        invariant wantA == Prepend(ans, ReadAnswers(p, parseOffset, answersLeft))
        decreases answersLeft
      {
        var err, a := ReadAnswer();
        if err != ERR_OK {
          return false, qs, ans;
        }
        PrependStep(ans, a, ReadAnswers(p, parseOffset, answersLeft));
        ans := ans + [a];
      }
      assert ans + [] == ans;
      return true, qs, ans;
    }
  }

  /** What is sent, received and parsed: everything that was added arrives, if and only if every name at the
      head of a record takes at most five jumps; names in the data of answers arrive as well. */
  method Exchange(out: OutPacket, questions: nat, answers: nat) returns (ok: bool, sent: array<byte>, qs: seq<Question>, ans: seq<Answer>)
    requires out.Valid() && out.pbuf != null && Proper(out.log, questions) && questions + answers == |out.log|
    ensures ok <==> forall k :: 0 <= k < |out.log| ==> Readable(out.log[k])
    ensures sent[..] == out.pbuf[..out.writeOffset]
    ensures ok ==> SameRecords(sent[..], out.log, out.writeOffset, questions, qs, ans)
  {
    hide EntriesAt, Proper, Readable, ReadQuestions, ReadAnswers, SameRecords;
    PacketReads(out.pbuf[..], out.log, out.writeOffset, questions);
    var bytes := out.pbuf[..out.writeOffset];
    assert bytes == out.pbuf[..][..out.writeOffset];
    sent := new byte[|bytes|](i requires 0 <= i < |bytes| => bytes[i]);
    assert sent[..] == bytes;
    var packet := new InPacket(sent, questions, answers);
    ok, qs, ans := packet.ReadAll();
  }

  function Prepend<T>(done: seq<T>, r: Option<(seq<T>, nat)>): Option<(seq<T>, nat)> {
    match r
    case None => None
    case Some((rest, end)) => Some((done + rest, end))
  }

  lemma PrependNil<T>(r: Option<(seq<T>, nat)>)
    ensures Prepend([], r) == r
  {
    if r.Some? {
      assert [] + r.value.0 == r.value.0;
    }
  }

  lemma PrependStep<T>(done: seq<T>, x: T, r: Option<(seq<T>, nat)>)
    ensures Prepend(done, Prepend([x], r)) == Prepend(done + [x], r)
  {
    if r.Some? {
      assert done + ([x] + r.value.0) == done + [x] + r.value.0;
    }
  }
}
