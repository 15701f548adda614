/**
 Questions and answers in a packet: how records are laid out, and that reading them
 back returns them in order (network/lwip_mdns/mdns_server.c, `mdns_read_rr_info`,
 `mdns_read_question`, `mdns_read_answer`).
 */
module MdnsLayout {
  import opened Basics
  import opened MdnsName
  import opened MdnsCompress
  import opened MdnsHeld

  // ----- records as they were asked to be written -----

  // The part that questions and answers share; flag is "unicast" or "cache flush".
  datatype Head = Head(s: Stored, typ: nat, klass: nat, flag: bool)
  // The variable part of an answer: raw data, then possibly a name.
  datatype Rdata = Rdata(ttl: nat, data: seq<byte>, name: Option<Stored>)
  // A record and where it starts; a question has no rdata.
  datatype Entry = Entry(at: nat, head: Head, rdata: Option<Rdata>)

  function U16At(p: seq<byte>, i: nat): nat
    requires i + 2 <= |p|
  {
    p[i] as int * 256 + p[i + 1] as int
  }

  function U32At(p: seq<byte>, i: nat): nat
    requires i + 4 <= |p|
  {
    U16At(p, i) * 0x10000 + U16At(p, i + 2)
  }

  // The class field: the flag is its highest bit.
  function ClassWord(klass: nat, flag: bool): nat {
    if flag && klass < 0x8000 then klass + 0x8000 else klass
  }

  ghost predicate HeadAt(p: seq<byte>, h: Head, at: nat, next: nat) {
    && NameFits(h.s) && at + 4 <= next <= |p|
    && Holds(p, at, h.s, Below(next)) && End(p, at) == next - 4
    && U16At(p, next - 4) == h.typ && U16At(p, next - 2) == ClassWord(h.klass, h.flag)
  }

  // The variable part from its TTL on; `hole` says that the length field is still to be written.
  ghost predicate RdataAt(p: seq<byte>, rd: Rdata, at: nat, next: nat, hole: bool) {
    && at + 6 + |rd.data| <= next <= |p|
    && U32At(p, at) == rd.ttl
    && (!hole ==> U16At(p, at + 4) == next - at - 6)
    && SameBytes(rd.data, 0, p, at + 6, |rd.data|)
    && match rd.name {
         case None => next == at + 6 + |rd.data|
         case Some(s) =>
           && NameFits(s)
           && Holds(p, at + 6 + |rd.data|, s, if hole then Region(at + 4, at + 6, next) else Below(next))
           && End(p, at + 6 + |rd.data|) == next
       }
  }

  ghost predicate NameFits(s: Stored) {
    WellFormed(s.name, 0) && |s.name| <= NAME_LIMIT
  }

  ghost predicate EntryAt(p: seq<byte>, e: Entry, next: nat) {
    match e.rdata
    case None => HeadAt(p, e.head, e.at, next)
    case Some(rd) => HeadAt(p, e.head, e.at, End(p, e.at) + 4) && RdataAt(p, rd, End(p, e.at) + 4, next, false)
  }

  // Record i starts where record i-1 ends; the first follows the header, `end` follows the last.
  function StartOf(log: seq<Entry>, i: nat, end: nat): nat {
    if i < |log| then log[i].at else end
  }

  ghost predicate EntriesAt(p: seq<byte>, log: seq<Entry>, end: nat) {
    && StartOf(log, 0, end) == DNS_HEADER_SIZE
    && forall i: nat :: i < |log| ==> Placed(p, log, i, end)
  }

  ghost predicate Placed(p: seq<byte>, log: seq<Entry>, i: nat, end: nat)
    requires i < |log|
  {
    StartOf(log, i + 1, end) <= end && EntryAt(p, log[i], StartOf(log, i + 1, end))
  }

  // ----- the bytes on the wire -----

  // Type and class in network byte order; the flag is the highest bit of the class.
  ghost predicate HeadWire(p: seq<byte>, i: nat, typ: nat, klass: nat, flag: bool) {
    && i + 4 <= |p| && p[i] as int == typ / 256 && p[i + 1] as int == typ % 256
    && p[i + 2] as int == klass / 256 + (if flag && klass < 0x8000 then 128 else 0) && p[i + 3] as int == klass % 256
  }

  // TTL and length in network byte order.
  ghost predicate TailWire(p: seq<byte>, i: nat, ttl: nat, length: nat) {
    && i + 6 <= |p|
    && p[i] as int == ttl / 0x100_0000 && p[i + 1] as int == ttl / 0x1_0000 % 256
    && p[i + 2] as int == ttl / 0x100 % 256 && p[i + 3] as int == ttl % 256
    && p[i + 4] as int == length / 256 && p[i + 5] as int == length % 256
  }

  ghost predicate QuestionWire(p: seq<byte>, at: nat, next: nat, typ: nat, klass: nat, flag: bool) {
    End(p, at) + 4 == next && HeadWire(p, End(p, at), typ, klass, flag)
  }

  // Behind the name: type, class, TTL, length of the rest, and the data at its head.
  ghost predicate AnswerWire(p: seq<byte>, at: nat, next: nat, typ: nat, klass: nat, flag: bool, ttl: nat, data: seq<byte>) {
    var i := End(p, at);
    && i + 10 + |data| <= next <= |p| && HeadWire(p, i, typ, klass, flag)
    && TailWire(p, i + 4, ttl, next - (i + 10)) && p[i + 10..i + 10 + |data|] == data
  }

  lemma U16Bytes(p: seq<byte>, i: nat)
    requires i + 2 <= |p|
    ensures p[i] as int == U16At(p, i) / 256 && p[i + 1] as int == U16At(p, i) % 256
  {
  }

  lemma U32Bytes(p: seq<byte>, i: nat)
    requires i + 4 <= |p|
    ensures var v := U32At(p, i);
            && p[i] as int == v / 0x100_0000 && p[i + 1] as int == v / 0x1_0000 % 256
            && p[i + 2] as int == v / 0x100 % 256 && p[i + 3] as int == v % 256
  {
    Bytes32(p[i], p[i + 1], p[i + 2], p[i + 3]);
    assert U32At(p, i) == Word32(p[i], p[i + 1], p[i + 2], p[i + 3]);
  }

  function Word32(a: byte, b: byte, c: byte, d: byte): nat {
    ((a as int * 256 + b as int) * 256 + c as int) * 256 + d as int
  }

  lemma Bytes32(a: byte, b: byte, c: byte, d: byte)
    ensures var v := Word32(a, b, c, d);
            a as int == v / 0x100_0000 && b as int == v / 0x1_0000 % 256 && c as int == v / 0x100 % 256 && d as int == v % 256
  {
    var v, w := Word32(a, b, c, d), (a as int * 256 + b as int) * 256 + c as int;
    assert v / 0x100 == w;
    assert v / 0x1_0000 == a as int * 256 + b as int;
  }

  lemma HeadBytes(p: seq<byte>, h: Head, at: nat, next: nat)
    requires HeadAt(p, h, at, next) && h.klass < 0x1_0000
    ensures HeadWire(p, End(p, at), h.typ, h.klass, h.flag)
  {
    hide Denotes, Within, Tight, End, WellFormed, U16At;
    U16Bytes(p, next - 4);
    U16Bytes(p, next - 2);
  }

  lemma RdataBytes(p: seq<byte>, rd: Rdata, at: nat, next: nat)
    requires RdataAt(p, rd, at, next, false)
    ensures TailWire(p, at, rd.ttl, next - at - 6) && p[at + 6..at + 6 + |rd.data|] == rd.data
  {
    hide Denotes, Within, Tight, End, WellFormed, U16At, U32At;
    U32Bytes(p, at);
    U16Bytes(p, at + 4);
  }

  /** A record of the packet is on the wire as section 4.1 of RFC 1035 says. */
  lemma EntryWire(p: seq<byte>, e: Entry, next: nat)
    requires EntryAt(p, e, next) && FieldsFit(e)
    ensures match e.rdata
            case None => QuestionWire(p, e.at, next, e.head.typ, e.head.klass, e.head.flag)
            case Some(rd) => AnswerWire(p, e.at, next, e.head.typ, e.head.klass, e.head.flag, rd.ttl, rd.data)
  {
    hide HeadWire, TailWire;
    match e.rdata
    case None =>
      HeadBytes(p, e.head, e.at, next);
    case Some(rd) =>
      HeadBytes(p, e.head, e.at, End(p, e.at) + 4);
      RdataBytes(p, rd, End(p, e.at) + 4, next);
  }

  lemma LastEntry(p: seq<byte>, log: seq<Entry>, end: nat)
    requires EntriesAt(p, log, end) && log != []
    ensures EntryAt(p, log[|log| - 1], end)
  {
    hide EntryAt;
    assert Placed(p, log, |log| - 1, end);
  }

  // ----- records keep their meaning -----

  lemma HoldsIn(p: seq<byte>, q: seq<byte>, o: nat, s: Stored, r: Region, end: nat)
    requires Holds(p, o, s, r) && SameOn(p, q, r) && r.end <= end
    requires r.lo <= end
    ensures Holds(q, o, s, Below(end)) && End(q, o) == End(p, o)
  {
    HoldsFrame(p, q, o, s, r);
    HoldsLarger(q, o, s, r, Below(end));
  }

  lemma HeadFrame(p: seq<byte>, q: seq<byte>, h: Head, at: nat, next: nat)
    requires HeadAt(p, h, at, next) && SameOn(p, q, Below(next))
    ensures HeadAt(q, h, at, next) && End(q, at) == End(p, at)
  {
    hide Denotes, Within, Tight, End, WellFormed;
    HoldsIn(p, q, at, h.s, Below(next), next);
    assert q[next - 4] == p[next - 4] && q[next - 3] == p[next - 3];
    assert q[next - 2] == p[next - 2] && q[next - 1] == p[next - 1];
  }

  lemma RdataFrame(p: seq<byte>, q: seq<byte>, rd: Rdata, at: nat, next: nat)
    requires RdataAt(p, rd, at, next, false) && SameOn(p, q, Below(next))
    ensures RdataAt(q, rd, at, next, false)
  {
    hide Denotes, Within, Tight, End, WellFormed;
    if rd.name.Some? {
      HoldsIn(p, q, at + 6 + |rd.data|, rd.name.value, Below(next), next);
    }
    assert forall x :: at <= x < at + 6 ==> q[x] == p[x];
    assert q[at] == p[at] && q[at + 1] == p[at + 1] && q[at + 2] == p[at + 2] && q[at + 3] == p[at + 3];
    assert q[at + 4] == p[at + 4] && q[at + 5] == p[at + 5];
    forall x | 0 <= x < |rd.data| ensures rd.data[x] == q[x + (at + 6) - 0] {
      assert q[x + at + 6] == p[x + at + 6];
    }
  }

  // Filling in the length field closes the record, and touches nothing else of it.
  lemma RdataClosed(p: seq<byte>, q: seq<byte>, rd: Rdata, at: nat, next: nat)
    requires RdataAt(p, rd, at, next, true) && next - at - 6 < 0x10000
    requires Written(p, q, at + 4, U16(next - at - 6))
    ensures RdataAt(q, rd, at, next, false)
  {
    hide Denotes, Within, Tight, End, WellFormed;
    var field := U16(next - at - 6);
    assert q[at + 4] == field[0] && q[at + 5] == field[1];
    assert q[at] == p[at] && q[at + 1] == p[at + 1] && q[at + 2] == p[at + 2] && q[at + 3] == p[at + 3];
    if rd.name.Some? {
      HoldsIn(p, q, at + 6 + |rd.data|, rd.name.value, Region(at + 4, at + 6, next), next);
    }
    forall x | 0 <= x < |rd.data| ensures rd.data[x] == q[x + (at + 6) - 0] {
      assert q[x + at + 6] == p[x + at + 6];
    }
  }

  lemma EntryFrame(p: seq<byte>, q: seq<byte>, e: Entry, next: nat)
    requires EntryAt(p, e, next) && SameOn(p, q, Below(next))
    ensures EntryAt(q, e, next)
  {
    match e.rdata
    case None =>
      HeadFrame(p, q, e.head, e.at, next);
    case Some(rd) =>
      HeadFrame(p, q, e.head, e.at, End(p, e.at) + 4);
      RdataFrame(p, q, rd, End(p, e.at) + 4, next);
  }

  lemma PlacedFrame(p: seq<byte>, q: seq<byte>, log: seq<Entry>, i: nat, end: nat)
    requires i < |log| && Placed(p, log, i, end) && SameOn(p, q, Below(end))
    ensures Placed(q, log, i, end)
  {
    hide HeadAt, RdataAt;
    EntryFrame(p, q, log[i], StartOf(log, i + 1, end));
  }

  // Writing from `end` on, however much, leaves every record as it was.
  lemma EntriesFrame(p: seq<byte>, q: seq<byte>, log: seq<Entry>, end: nat)
    requires EntriesAt(p, log, end) && SameOn(p, q, Below(end))
    ensures EntriesAt(q, log, end)
  {
    forall i: nat | i < |log| ensures Placed(q, log, i, end) {
      PlacedFrame(p, q, log, i, end);
    }
  }

  lemma PlacedAppend(p: seq<byte>, log: seq<Entry>, i: nat, end: nat, e: Entry, next: nat)
    requires i < |log| && Placed(p, log, i, end) && e.at == end <= next
    ensures Placed(p, log + [e], i, next)
  {
    hide HeadAt, RdataAt;
    assert (log + [e])[i] == log[i];
    assert StartOf(log + [e], i + 1, next) == StartOf(log, i + 1, end);
  }

  lemma EntriesAppend(p: seq<byte>, log: seq<Entry>, end: nat, e: Entry, next: nat)
    requires EntriesAt(p, log, end) && EntryAt(p, e, next) && e.at == end <= next
    ensures EntriesAt(p, log + [e], next)
  {
    forall i: nat | i < |log + [e]| ensures Placed(p, log + [e], i, next) {
      if i < |log| {
        PlacedAppend(p, log, i, end, e, next);
      }
    }
  }

  // ----- reading -----

  datatype RrInfo = RrInfo(name: seq<byte>, typ: nat, klass: nat)
  datatype Question = Question(info: RrInfo, unicast: bool)
  datatype Answer = Answer(info: RrInfo, cacheFlush: bool, ttl: nat, rdLength: nat, rdOffset: nat)

  // `mdns_read_rr_info`: the name and the two fields after it, and where they end.
  function ReadRrInfo(p: seq<byte>, off: nat): Option<(RrInfo, nat)> {
    var r := ReadName(p, off);
    if r.ReadError? || r.next + 4 > |p| then None
    else Some((RrInfo(r.name, U16At(p, r.next), U16At(p, r.next + 2)), r.next + 4))
  }

  // The highest bit of the class is the flag.
  function SplitClass(i: RrInfo): (RrInfo, bool) {
    (i.(klass := i.klass % 0x8000), i.klass / 0x8000 % 2 == 1)
  }

  // `mdns_read_question` at off
  function ReadQuestionAt(p: seq<byte>, off: nat): Option<(Question, nat)> {
    if |p| < off then None else
    match ReadRrInfo(p, off)
    case None => None
    case Some((info, next)) =>
      var (i, flag) := SplitClass(info);
      Some((Question(i, flag), next))
  }

  // `mdns_read_answer` at off; the new parse offset is 16 bits wide.
  function ReadAnswerAt(p: seq<byte>, off: nat): Option<(Answer, nat)> {
    if |p| < off then None else
    match ReadRrInfo(p, off)
    case None => None
    case Some((info, at)) =>
      var (i, flag) := SplitClass(info);
      if at + 6 > |p| then None else
      Some((Answer(i, flag, U32At(p, at), U16At(p, at + 4), at + 6), (at + 6 + U16At(p, at + 4)) % 0x10000))
  }

  // A question at off, in bytes: name, type, class without its highest bit, and that bit.
  ghost predicate QuestionBytes(p: seq<byte>, off: nat, q: Question, next: nat) {
    var n := ReadName(p, off);
    && n.Read? && n.next + 4 == next <= |p| && q.info.name == n.name
    && q.info.typ == p[n.next] as int * 256 + p[n.next + 1] as int
    && q.info.klass == p[n.next + 2] as int % 128 * 256 + p[n.next + 3] as int && (q.unicast <==> p[n.next + 2] as int >= 128)
  }

  ghost predicate AnswerBytes(p: seq<byte>, off: nat, a: Answer, next: nat) {
    var n := ReadName(p, off);
    && n.Read? && n.next + 10 <= |p| && a.info.name == n.name
    && a.info.typ == p[n.next] as int * 256 + p[n.next + 1] as int
    && a.info.klass == p[n.next + 2] as int % 128 * 256 + p[n.next + 3] as int && (a.cacheFlush <==> p[n.next + 2] as int >= 128)
    && a.ttl == p[n.next + 4] as int * 0x100_0000 + p[n.next + 5] as int * 0x1_0000 + p[n.next + 6] as int * 0x100 + p[n.next + 7] as int
    && a.rdLength == p[n.next + 8] as int * 256 + p[n.next + 9] as int && a.rdOffset == n.next + 10
    && next == (a.rdOffset + a.rdLength) % 0x1_0000
  }

  /** What is read of a question, byte by byte, and when it can be read. */
  lemma QuestionInBytes(p: seq<byte>, off: nat)
    ensures var r := ReadQuestionAt(p, off);
            && (r.Some? <==> off <= |p| && ReadName(p, off).Read? && ReadName(p, off).next + 4 <= |p|)
            && (r.Some? ==> QuestionBytes(p, off, r.value.0, r.value.1))
  {
    hide ReadName;
  }

  lemma AnswerInBytes(p: seq<byte>, off: nat)
    ensures var r := ReadAnswerAt(p, off);
            && (r.Some? <==> off <= |p| && ReadName(p, off).Read? && ReadName(p, off).next + 10 <= |p|)
            && (r.Some? ==> AnswerBytes(p, off, r.value.0, r.value.1))
  {
    hide ReadName;
  }

  // What a reader should see of a record.
  function InfoOf(h: Head): (RrInfo, bool) {
    (RrInfo(h.s.name, h.typ, h.klass % 0x8000), h.flag || h.klass >= 0x8000)
  }

  ghost predicate FieldsFit(e: Entry) {
    e.head.typ < 0x10000 && e.head.klass < 0x10000
  }

  lemma ReadHead(p: seq<byte>, h: Head, at: nat, next: nat)
    requires HeadAt(p, h, at, next) && h.klass < 0x10000
    ensures h.s.jumps <= MAX_JUMPS ==>
              ReadRrInfo(p, at) == Some((RrInfo(h.s.name, h.typ, ClassWord(h.klass, h.flag)), next))
    ensures h.s.jumps > MAX_JUMPS ==> ReadRrInfo(p, at).None?
    ensures SplitClass(RrInfo(h.s.name, h.typ, ClassWord(h.klass, h.flag))) == InfoOf(h)
  {
    ReadHeld(p, at, h.s, Below(next));
  }

  /** A question reads back as written exactly when its name takes at most five jumps. */
  lemma QuestionReads(p: seq<byte>, e: Entry, next: nat)
    requires EntryAt(p, e, next) && e.rdata.None? && FieldsFit(e)
    ensures ReadQuestionAt(p, e.at) ==
              if e.head.s.jumps <= MAX_JUMPS then Some((Question(InfoOf(e.head).0, InfoOf(e.head).1), next)) else None
  {
    hide Denotes, Within, Tight, End, WellFormed, ReadLoop;
    ReadHead(p, e.head, e.at, next);
  }

  // An answer's data as a reader finds it through rdOffset and rdLength.
  ghost predicate SameRdata(p: seq<byte>, a: Answer, rd: Rdata, next: nat) {
    && a.ttl == rd.ttl && a.rdOffset + a.rdLength == next <= |p|
    && |rd.data| <= a.rdLength && p[a.rdOffset..a.rdOffset + |rd.data|] == rd.data
    && match rd.name {
         case None => a.rdLength == |rd.data|
         case Some(s) =>
           ReadName(p, a.rdOffset + |rd.data|) == if s.jumps <= MAX_JUMPS then Read(s.name, next) else ReadError
       }
  }

  /** An answer reads back with the fields and the data that were written, exactly when its name
      takes at most five jumps. */
  lemma AnswerReads(p: seq<byte>, e: Entry, next: nat)
    requires EntryAt(p, e, next) && e.rdata.Some? && FieldsFit(e) && next < 0x10000
    ensures e.head.s.jumps > MAX_JUMPS ==> ReadAnswerAt(p, e.at).None?
    ensures e.head.s.jumps <= MAX_JUMPS ==>
              && ReadAnswerAt(p, e.at).Some?
              && var (a, n) := ReadAnswerAt(p, e.at).value;
              && n == next && (a.info, a.cacheFlush) == InfoOf(e.head)
              && SameRdata(p, a, e.rdata.value, next)
  {
    hide Denotes, Within, Tight, End, WellFormed, ReadLoop;
    var mid, rd := End(p, e.at) + 4, e.rdata.value;
    ReadHead(p, e.head, e.at, mid);
    var start := mid + 6;
    assert p[start..start + |rd.data|] == rd.data;
    if rd.name.Some? {
      ReadHeld(p, start + |rd.data|, rd.name.value, Below(next));
    }
  }
}
