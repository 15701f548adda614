/**
 Names that an outgoing packet holds: what a written name means, whatever was written
 before it, and what keeps that meaning (network/lwip_mdns/mdns_server.c,
 `mdns_write_domain`).
 */
module MdnsHeld {
  import opened MdnsName
  import opened MdnsCompress

  const NAME_LIMIT := 255

  // A name that the packet holds, and the number of pointers on the way through it.
  datatype Stored = Stored(name: seq<byte>, jumps: nat)

  // ----- names already in the packet -----

  ghost predicate NameOk(n: seq<byte>) {
    WellFormed(n, 0) && |n| <= NAME_LIMIT
  }

  // Packet p holds s at o, and says so with bytes of region r alone.
  ghost predicate Holds(p: seq<byte>, o: nat, s: Stored, r: Region) {
    && Denotes(p, o, s.name, 0, s.jumps)
    && Within(p, o, s.name, 0, s.jumps, r)
    && Tight(p, o, s.name, 0, s.jumps)
    && End(p, o) <= r.end
  }

  ghost predicate Known(p: seq<byte>, known: map<nat, Stored>, r: Region) {
    forall o :: o in known ==> DNS_HEADER_SIZE <= o && NameOk(known[o].name) && Holds(p, o, known[o], r)
  }

  // Names survive every write outside the bytes they use.
  lemma HoldsFrame(p: seq<byte>, q: seq<byte>, o: nat, s: Stored, r: Region)
    requires Holds(p, o, s, r) && SameOn(p, q, r)
    ensures Holds(q, o, s, r) && End(q, o) == End(p, o)
  {
    DenotesFrame(p, q, o, s.name, 0, s.jumps, r);
    TightFrame(p, q, o, s.name, 0, s.jumps, r);
  }

  lemma HoldsLarger(p: seq<byte>, o: nat, s: Stored, r: Region, r': Region)
    requires Holds(p, o, s, r) && r.end <= r'.end
    requires r'.HasSpan(0, r.lo) && (r'.HasSpan(r.hi, r.end) || r.end <= r.hi)
    ensures Holds(p, o, s, r')
  {
    WithinLarger(p, o, s.name, 0, s.jumps, r, r');
  }

  lemma KnownFrame(p: seq<byte>, q: seq<byte>, known: map<nat, Stored>, r: Region, r': Region)
    requires Known(p, known, r) && SameOn(p, q, r)
    requires r.end <= r'.end && r'.HasSpan(0, r.lo) && (r'.HasSpan(r.hi, r.end) || r.end <= r.hi)
    ensures Known(q, known, r')
  {
    forall o | o in known ensures Holds(q, o, known[o], r') {
      HoldsFrame(p, q, o, known[o], r);
      HoldsLarger(q, o, known[o], r, r');
    }
  }

  // After the boundary k the next one follows its label; after the zero marker there is none.
  lemma {:induction false} NextBoundary(d: seq<byte>, i: nat, k: nat)
    requires WellFormed(d, i) && Boundary(d, i, k)
    ensures d[k] == 0 ==> k + 1 == |d|
    ensures d[k] != 0 ==> k + 1 + d[k] < |d| && Boundary(d, i, k + 1 + d[k])
    ensures forall w: nat :: k < w < k + 1 + d[k] ==> !Boundary(d, i, w)
    decreases |d| - i
  {
    if i == k {
      if d[k] != 0 {
        assert Boundary(d, k + 1 + d[k], k + 1 + d[k]);
      }
    } else {
      NextBoundary(d, i + 1 + d[i], k);
    }
  }

  lemma ReadNameEnd(p: seq<byte>, off: nat)
    requires ReadName(p, off).Read?
    ensures ReadName(p, off).next == End(p, off) > off
  {
    var jumps := ReadLoopSound(p, off, [], 0);
  }

  /** The reader gets back a name that the packet holds, unless more than five jumps lead through it. */
  lemma ReadHeld(p: seq<byte>, o: nat, s: Stored, r: Region)
    requires Holds(p, o, s, r) && WellFormed(s.name, 0) && |s.name| <= NAME_LIMIT && r.end <= |p|
    ensures ReadName(p, o) == if s.jumps <= 5 then Read(s.name, End(p, o)) else ReadError
    ensures o < End(p, o) <= |p|
    ensures End(p, o) - o < 256
  {
    ReadLoopComplete(p, o, s.name, 0, 0, s.jumps);
    assert s.name[..0] == [];
    PhysicalPart(p, o, s.name, 0, s.jumps);
    if s.jumps > 0 {
      TightPointer(p, o, s.name, 0, s.jumps);
    }
  }

  // A pointer is shorter than what it stands for.
  lemma {:induction false} TightPointer(p: seq<byte>, off: nat, n: seq<byte>, i: nat, jumps: nat)
    requires Denotes(p, off, n, i, jumps) && Tight(p, off, n, i, jumps) && WellFormed(n, i) && jumps > 0
    requires End(p, off) <= |p|
    ensures End(p, off) - off <= |n| - i
    decreases |n| - i
  {
    var c := Get(p, off);
    if IsJump(c) {
      var t := JumpTarget(c, p[off + 1]);
      assert n[i] == p[t] != 0;
    } else {
      TightPointer(p, off + 1 + c, n, i + 1 + c, jumps);
    }
  }

  // ----- what a written name means -----

  lemma WholeName(p: seq<byte>, w: nat, d: seq<byte>, r: Region)
    requires WellFormed(d, 0) && SameBytes(d, 0, p, w, |d|)
    requires r.HasSpan(w, w + |d|) && w + |d| <= r.end
    ensures Holds(p, w, Stored(d, 0), r) && End(p, w) == w + |d|
  {
    LiteralDenotes(p, w, d, 0, r);
  }

  // The matching place inside an old name holds the suffix of the new one, if the match is aligned.
  lemma SuffixHeld(p: seq<byte>, o: nat, s: Stored, d: seq<byte>, cut: nat, pos: nat, r: Region)
    requires NameOk(s.name) && NameOk(d)
    requires Holds(p, o, s, r) && End(p, o) <= |p|
    requires Boundary(d, 0, cut) && Match(d, s.name, End(p, o) - o, cut) && pos == MatchPos(d, s.name, cut)
    requires WellFormed(d, cut) && Aligned(p, o, s.name, s.jumps, d, cut)
    ensures Denotes(p, o + pos, d, cut, s.jumps)
    ensures Within(p, o + pos, d, cut, s.jumps, r) && Tight(p, o + pos, d, cut, s.jumps)
    ensures o + pos < |p| && 0 < p[o + pos] < 0xC0
  {
    hide Denotes, Within, Tight, End, Boundary, Labels, WellFormed, Aligned;
    var t := s.name;
    PhysicalPart(p, o, t, 0, s.jumps);
    AlignedDenotes(p, o, t, s.jumps, d, cut, r);
    assert d[cut] == t[pos] && t[pos] == p[o + pos];
    NextBoundary(d, 0, cut);
    LengthByte(d, cut);
  }

  lemma LengthByte(n: seq<byte>, i: nat)
    requires WellFormed(n, i)
    ensures i < |n| && n[i] <= LABEL_MAXLEN
  {
  }

  // A pointer is a name.
  lemma PointerName(q: seq<byte>, at: nat, target: nat, d: seq<byte>, cut: nat, jumps: nat, r: Region)
    requires Denotes(q, target, d, cut, jumps) && Within(q, target, d, cut, jumps, r) && Tight(q, target, d, cut, jumps)
    requires DNS_HEADER_SIZE <= target < |q| && target < 0x4000 && 0 < q[target] < 0xC0
    requires at + 1 < |q| && q[at] == 0xC0 + target / 256 && q[at + 1] == target % 256
    requires r.HasSpan(at, at + 2)
    ensures Denotes(q, at, d, cut, jumps + 1) && Within(q, at, d, cut, jumps + 1, r) && Tight(q, at, d, cut, jumps + 1)
    ensures End(q, at) == at + 2
  {
    assert JumpTarget(q[at], q[at + 1]) == target;
  }

  lemma SuffixKept(p: seq<byte>, q: seq<byte>, target: nat, d: seq<byte>, cut: nat, jumps: nat, r: Region, r': Region)
    requires Denotes(p, target, d, cut, jumps) && Within(p, target, d, cut, jumps, r) && Tight(p, target, d, cut, jumps)
    requires target < |p| && r.end <= |p| && SameOn(p, q, r)
    requires r.lo <= r.hi <= r.end <= r'.end && r' == Region(r.lo, r.hi, r'.end)
    ensures Denotes(q, target, d, cut, jumps) && Within(q, target, d, cut, jumps, r') && Tight(q, target, d, cut, jumps)
    ensures target < |q| && q[target] == p[target] && target < r.end
  {
    WithinHead(p, target, d, cut, jumps, r);
    assert q[target] == p[target];
    DenotesFrame(p, q, target, d, cut, jumps, r);
    TightFrame(p, q, target, d, cut, jumps, r);
    WithinLarger(q, target, d, cut, jumps, r, r');
  }

  lemma PrefixedPointer(q: seq<byte>, w: nat, target: nat, d: seq<byte>, cut: nat, jumps: nat, r: Region)
    requires Denotes(q, target, d, cut, jumps) && Within(q, target, d, cut, jumps, r) && Tight(q, target, d, cut, jumps)
    requires DNS_HEADER_SIZE <= target < |q| && target < 0x4000 && 0 < q[target] < 0xC0
    requires WellFormed(d, 0) && Boundary(d, 0, cut)
    requires w + cut + 1 < |q| && SameBytes(d, 0, q, w, cut)
    requires q[w + cut] == 0xC0 + target / 256 && q[w + cut + 1] == target % 256
    requires r.hi <= w && r.end == w + cut + 2
    ensures Holds(q, w, Stored(d, jumps + 1), r) && End(q, w) == r.end
  {
    PointerName(q, w + cut, target, d, cut, jumps, r);
    LiteralPrefix(q, w, d, 0, cut, jumps + 1, r);
  }

  // Labels up to the cut followed by a pointer to the matching place.
  lemma PointedName(p: seq<byte>, q: seq<byte>, o: nat, s: Stored, d: seq<byte>, cut: nat, pos: nat, r: Region, r': Region)
    requires NameOk(s.name) && NameOk(d)
    requires Holds(p, o, s, r) && r.end <= |p| && SameOn(p, q, r)
    requires Boundary(d, 0, cut) && Match(d, s.name, End(p, o) - o, cut) && pos == MatchPos(d, s.name, cut)
    requires WellFormed(d, cut) && Aligned(p, o, s.name, s.jumps, d, cut)
    requires r.lo <= r.hi <= r.end && r' == Region(r.lo, r.hi, r.end + cut + 2) && r'.end <= |q|
    requires SameBytes(d, 0, q, r.end, cut)
    requires DNS_HEADER_SIZE <= o && r.end < 0x4000
    requires q[r.end + cut] == 0xC0 + (o + pos) / 256 && q[r.end + cut + 1] == (o + pos) % 256
    ensures Holds(q, r.end, Stored(d, s.jumps + 1), r') && End(q, r.end) == r'.end
  {
    hide Denotes, Within, Tight, End, WellFormed, Boundary, Labels, Aligned;
    SuffixHeld(p, o, s, d, cut, pos, r);
    SuffixKept(p, q, o + pos, d, cut, s.jumps, r, r');
    PrefixedPointer(q, r.end, o + pos, d, cut, s.jumps, r');
  }

  lemma WithinHead(p: seq<byte>, off: nat, n: seq<byte>, i: nat, jumps: nat, r: Region)
    requires Denotes(p, off, n, i, jumps) && Within(p, off, n, i, jumps, r)
    ensures r.Has(off)
  {
  }

  // ----- the bytes that are written -----

  ghost predicate Written(p: seq<byte>, q: seq<byte>, offset: nat, data: seq<byte>) {
    && |q| == |p| && offset + |data| <= |p|
    && (forall x {:trigger q[x]} :: offset <= x < offset + |data| ==> q[x] == data[x - offset])
    && (forall x {:trigger p[x]} {:trigger q[x]} :: 0 <= x < |p| && !(offset <= x < offset + |data|) ==> q[x] == p[x])
  }

  // Big-endian field, `lwip_htons`.
  function U16(v: nat): (b: seq<byte>)
    requires v < 0x10000
    ensures |b| == 2 && b[0] as int * 256 + b[1] as int == v
  {
    [v / 256, v % 256]
  }

  // The first byte from which a name of length total was replaced by a pointer, and its size.
  function NameSize(total: nat, cut: nat): nat {
    if cut < total then cut + DOMAIN_JUMP_SIZE else total
  }

  // d can be cut at w with a pointer into the name recorded at o.
  ghost predicate CanCut(p: seq<byte>, known: map<nat, Stored>, o: nat, d: seq<byte>, w: nat)
    requires WellFormed(d, 0)
  {
    && o in known && known[o].jumps <= MAX_JUMPS
    && Boundary(d, 0, w) && o < End(p, o) && Match(d, known[o].name, End(p, o) - o, w)
  }

  // The name is written in full, or cut with a pointer `jump` into the name recorded at `from`.
  ghost predicate Chosen(p: seq<byte>, known: map<nat, Stored>, d: seq<byte>, cut: nat, jump: nat, from: nat)
    requires WellFormed(d, 0)
  {
    if cut == |d| then jump == 0
    else CanCut(p, known, from, d, cut) && jump == from + MatchPos(d, known[from].name, cut)
  }

  // The cut is at the end, or its match is aligned.
  ghost predicate Straight(p: seq<byte>, known: map<nat, Stored>, d: seq<byte>, cut: nat, from: nat) {
    cut == |d| || (WellFormed(d, cut) && from in known && Aligned(p, from, known[from].name, known[from].jumps, d, cut))
  }

  ghost predicate NoBetter(p: seq<byte>, known: map<nat, Stored>, offsets: seq<nat>, d: seq<byte>, cut: nat)
    requires WellFormed(d, 0)
  {
    forall o, w: nat :: o in offsets && o != 0 && w < cut ==> !CanCut(p, known, o, d, w)
  }

  // The name at offsets[k] is the first of those that save most: from `cut` on, the rest of d is in it.
  ghost predicate BestAt(p: seq<byte>, known: map<nat, Stored>, offsets: seq<nat>, d: seq<byte>, cut: nat, k: nat)
    requires WellFormed(d, 0)
  {
    && k < |offsets| && offsets[k] != 0 && CanCut(p, known, offsets[k], d, cut) && NoBetter(p, known, offsets, d, cut)
    && forall i :: 0 <= i < k && offsets[i] != 0 ==> !CanCut(p, known, offsets[i], d, cut)
  }

  lemma BestUnique(p: seq<byte>, known: map<nat, Stored>, offsets: seq<nat>, d: seq<byte>, cut: nat, k: nat, cut': nat, k': nat)
    requires WellFormed(d, 0) && BestAt(p, known, offsets, d, cut, k) && BestAt(p, known, offsets, d, cut', k')
    ensures cut == cut' && k == k'
  {
    hide CanCut;
    assert offsets[k] in offsets && offsets[k'] in offsets;
  }

  // The name that saves most has five jumps already.
  ghost predicate TooDeep(p: seq<byte>, known: map<nat, Stored>, offsets: seq<nat>, d: seq<byte>)
    requires WellFormed(d, 0)
  {
    exists cut: nat, k: nat :: BestAt(p, known, offsets, d, cut, k) && known[offsets[k]].jumps == MAX_JUMPS
  }

  lemma NothingKnown(p: seq<byte>, offsets: seq<nat>, d: seq<byte>)
    requires WellFormed(d, 0)
    ensures !TooDeep(p, map[], offsets, d) && !Crooked(p, map[], offsets, d)
  {
  }

  // The match with the name that saves most is not aligned.
  ghost predicate Crooked(p: seq<byte>, known: map<nat, Stored>, offsets: seq<nat>, d: seq<byte>)
    requires WellFormed(d, 0)
  {
    exists cut: nat, k: nat :: BestAt(p, known, offsets, d, cut, k) && !Straight(p, known, d, cut, offsets[k])
  }

  // What is chosen for d: nothing if no recorded name saves anything, else the first that saves most.
  ghost predicate BestChoice(p: seq<byte>, known: map<nat, Stored>, offsets: seq<nat>, d: seq<byte>, cut: nat, from: nat)
    requires WellFormed(d, 0)
  {
    if cut == |d| then NoBetter(p, known, offsets, d, cut)
    else exists k: nat :: BestAt(p, known, offsets, d, cut, k) && offsets[k] == from
  }

  /** What can be said of the name before it is written: it will have more than five jumps if and only if the
      recorded name that saves most has five. */
  lemma DeepChoice(p: seq<byte>, known: map<nat, Stored>, offsets: seq<nat>, d: seq<byte>, cut: nat, from: nat)
    requires WellFormed(d, 0) && BestChoice(p, known, offsets, d, cut, from)
    ensures TooDeep(p, known, offsets, d) <==> cut != |d| && from in known && known[from].jumps == MAX_JUMPS
    ensures Crooked(p, known, offsets, d) <==> !Straight(p, known, d, cut, from)
    ensures cut != |d| ==> from in known && known[from].jumps <= MAX_JUMPS
  {
    hide Aligned;
    if cut != |d| {
      var k: nat :| BestAt(p, known, offsets, d, cut, k) && offsets[k] == from;
      forall cut': nat, k': nat | BestAt(p, known, offsets, d, cut', k') ensures k' == k {
        BestUnique(p, known, offsets, d, cut, k, cut', k');
      }
    } else {
      forall cut': nat, k: nat ensures !BestAt(p, known, offsets, d, cut', k) {
        if BestAt(p, known, offsets, d, cut', k) {
          assert false;
        }
      }
    }
  }

  lemma NoBetterStep(p: seq<byte>, known: map<nat, Stored>, offsets: seq<nat>, o: nat, d: seq<byte>, cut: nat, cut': nat)
    requires WellFormed(d, 0) && NoBetter(p, known, offsets, d, cut) && cut' <= cut
    requires o != 0 ==> forall w: nat :: w < cut' ==> !CanCut(p, known, o, d, w)
    ensures NoBetter(p, known, offsets + [o], d, cut')
  {
  }

  // From w on, q holds the first `cut` bytes of d, and a pointer to `jump` unless that is all of d.
  ghost predicate NameBytes(p: seq<byte>, q: seq<byte>, w: nat, d: seq<byte>, cut: nat, jump: nat) {
    && cut <= |d| && w + NameSize(|d|, cut) <= |q| == |p|
    && (forall x {:trigger p[x]} {:trigger q[x]} :: 0 <= x < |p| && !(w <= x < w + NameSize(|d|, cut)) ==> q[x] == p[x])
    && SameBytes(d, 0, q, w, cut)
    && (cut < |d| ==> jump < 0x4000 && q[w + cut] == 0xC0 + jump / 256 && q[w + cut + 1] == jump % 256)
  }

  lemma NameWritten(p: seq<byte>, q: seq<byte>, known: map<nat, Stored>, r: Region, d: seq<byte>, cut: nat, jump: nat, from: nat)
    returns (s: Stored)
    requires Known(p, known, r) && NameOk(d)
    requires r.lo <= r.hi <= r.end <= |p| && DNS_HEADER_SIZE <= r.end < 0x4000
    requires Chosen(p, known, d, cut, jump, from) && Straight(p, known, d, cut, from) && NameBytes(p, q, r.end, d, cut, jump)
    ensures s.name == d && (cut != |d| ==> from in known) && s.jumps == if cut == |d| then 0 else known[from].jumps + 1
    ensures var r' := Region(r.lo, r.hi, r.end + NameSize(|d|, cut));
            && Holds(q, r.end, s, r') && End(q, r.end) == r'.end
            && Known(q, known, r') && Known(q, known[r.end := s], r')
  {
    hide Denotes, Within, Tight, End, Boundary, WellFormed, Aligned;
    var r' := Region(r.lo, r.hi, r.end + NameSize(|d|, cut));
    assert SameOn(p, q, r);
    KnownFrame(p, q, known, r, r');
    if cut == |d| {
      s := Stored(d, 0);
      WholeName(q, r.end, d, r');
    } else {
      s := Stored(d, known[from].jumps + 1);
      PointedName(p, q, from, known[from], d, cut, jump - from, r, r');
    }
  }

  // ----- names that do not read back -----

  // Behind its literal labels, a name goes on with what follows them.
  lemma {:induction false} PrefixDenotes(q: seq<byte>, off: nat, d: seq<byte>, i: nat, k: nat, jumps: nat)
    requires WellFormed(d, i) && Boundary(d, i, k) && SameBytes(d, i, q, off, k - i) && Denotes(q, off, d, i, jumps)
    ensures Denotes(q, off + k - i, d, k, jumps)
    decreases |d| - i
  {
    if i != k {
      assert d[i] == q[off];
      PrefixDenotes(q, off + 1 + d[i], d, i + 1 + d[i], k, jumps);
    }
  }

  // q does not spell d at w, and neither does any packet with the same bytes in r.
  ghost predicate Hopeless(p: seq<byte>, w: nat, d: seq<byte>, r: Region) {
    forall q :: SameOn(p, q, r) ==> !Spells(q, w, d)
  }

  lemma Unspelled(p: seq<byte>, q: seq<byte>, known: map<nat, Stored>, r: Region, d: seq<byte>, cut: nat, jump: nat, from: nat, j: nat)
    requires Known(p, known, r) && NameOk(d) && r.lo <= r.hi <= r.end <= |p| && SameOn(p, q, r)
    requires Chosen(p, known, d, cut, jump, from) && !Straight(p, known, d, cut, from)
    requires cut <= |d| && r.end + NameSize(|d|, cut) <= |q| && SameBytes(d, 0, q, r.end, cut)
    requires cut < |d| ==> jump < 0x4000 && q[r.end + cut] == 0xC0 + jump / 256 && q[r.end + cut + 1] == jump % 256
    ensures !Denotes(q, r.end, d, 0, j)
  {
    hide Denotes, Within, Tight, End, Boundary, WellFormed, Match, Means, SameBytes, Known;
    MatchMeansNot(p, q, known, r, d, cut, jump, from);
    if Denotes(q, r.end, d, 0, j) {
      PrefixDenotes(q, r.end, d, 0, cut, j);
      JumpMeans(q, r.end + cut, d, cut, j, jump);
    }
  }

  // The place of a match that is not aligned does not mean the suffix, whatever is written elsewhere.
  lemma MatchMeansNot(p: seq<byte>, q: seq<byte>, known: map<nat, Stored>, r: Region, d: seq<byte>, cut: nat, jump: nat, from: nat)
    requires Known(p, known, r) && NameOk(d) && r.lo <= r.hi <= r.end <= |p| && SameOn(p, q, r) && r.end <= |q|
    requires Chosen(p, known, d, cut, jump, from) && !Straight(p, known, d, cut, from)
    ensures cut < |d| && Boundary(d, 0, cut) && !Means(q, jump, d, cut)
  {
    hide Denotes, Within, Tight, End, Boundary, WellFormed, Match, Means;
    var s := known[from];
    BoundaryWellFormed(d, 0, cut);
    HoldsFrame(p, q, from, s, r);
    MatchMeaning(q, from, s.name, s.jumps, d, cut);
    assert Aligned(q, from, s.name, s.jumps, d, cut) <==> Aligned(p, from, s.name, s.jumps, d, cut);
  }

  lemma JumpMeans(q: seq<byte>, w: nat, d: seq<byte>, cut: nat, j: nat, jump: nat)
    requires Denotes(q, w, d, cut, j) && w + 1 < |q| && jump < 0x4000 && q[w] == 0xC0 + jump / 256 && q[w + 1] == jump % 256
    ensures Means(q, jump, d, cut)
  {
    assert JumpTarget(q[w], q[w + 1]) == jump;
    assert Denotes(q, jump, d, cut, j - 1);
  }

  /** A name that is compressed against a match that is not aligned does not read back, whatever is written
      behind it. */
  lemma CrookedHopeless(p: seq<byte>, q: seq<byte>, known: map<nat, Stored>, r: Region, d: seq<byte>, cut: nat, jump: nat, from: nat)
    requires Known(p, known, r) && NameOk(d) && r.lo <= r.hi <= r.end <= |p|
    requires Chosen(p, known, d, cut, jump, from) && !Straight(p, known, d, cut, from) && NameBytes(p, q, r.end, d, cut, jump)
    ensures Hopeless(q, r.end, d, Region(r.lo, r.hi, r.end + NameSize(|d|, cut)))
  {
    hide Denotes, Known, Straight;
    ChosenShort(p, known, d, cut, jump, from);
    var r' := Region(r.lo, r.hi, r.end + NameSize(|d|, cut));
    forall q' | SameOn(q, q', r') ensures !Spells(q', r.end, d) {
      SameBytesOn(q, q', r', d, r.end, cut);
      assert SameOn(p, q', r) by { SameOnVia(p, q, q', r, r'); }
      forall j: nat ensures !Denotes(q', r.end, d, 0, j) {
        Unspelled(p, q', known, r, d, cut, jump, from, j);
      }
    }
  }

  lemma ChosenShort(p: seq<byte>, known: map<nat, Stored>, d: seq<byte>, cut: nat, jump: nat, from: nat)
    requires NameOk(d) && Chosen(p, known, d, cut, jump, from) && !Straight(p, known, d, cut, from)
    ensures cut < |d|
  {
  }

  lemma SameBytesOn(q: seq<byte>, q': seq<byte>, r: Region, d: seq<byte>, w: nat, cut: nat)
    requires SameOn(q, q', r) && cut <= |d| && SameBytes(d, 0, q, w, cut) && r.hi <= w && r.end == w + NameSize(|d|, cut) <= |q| && |d| > 0
    ensures SameBytes(d, 0, q', w, cut) && r.end <= |q'|
    ensures cut < |d| ==> q'[w + cut] == q[w + cut] && q'[w + cut + 1] == q[w + cut + 1]
  {
    forall x | 0 <= x < cut ensures d[x] == q'[x + w - 0] {
      assert q[x + w] == d[x];
    }
  }

  lemma SameOnVia(p: seq<byte>, q: seq<byte>, q': seq<byte>, r: Region, r': Region)
    requires |q| == |p| && r.lo <= r.hi <= r.end <= |p| && r' == Region(r.lo, r.hi, r'.end) && r.end <= r'.end <= |q|
    requires forall x {:trigger p[x]} {:trigger q[x]} :: 0 <= x < r.end ==> q[x] == p[x]
    requires SameOn(q, q', r')
    ensures SameOn(p, q', r)
  {
  }

  // When no character of any name is a length byte, every match is aligned.
  lemma TameStraight(p: seq<byte>, known: map<nat, Stored>, r: Region, offsets: seq<nat>, d: seq<byte>, lengths: set<byte>)
    requires Known(p, known, r) && r.end <= |p| && NameOk(d) && Over(d, 0, lengths)
    requires forall o :: o in known ==> WellFormed(known[o].name, 0) && Over(known[o].name, 0, lengths)
    ensures !Crooked(p, known, offsets, d)
  {
    hide Denotes, Within, Tight, End, Over, Aligned, Boundary;
    forall cut: nat, k: nat | BestAt(p, known, offsets, d, cut, k) ensures Straight(p, known, d, cut, offsets[k]) {
      var o := offsets[k];
      BoundaryWellFormed(d, 0, cut);
      DisjointAligned(p, o, known[o].name, known[o].jumps, d, cut, lengths);
    }
  }

  // The name is written in full, or as the compressor chooses.
  ghost predicate Decided(p: seq<byte>, known: map<nat, Stored>, offsets: seq<nat>, d: seq<byte>, cut: nat, from: nat, skip: bool)
    requires WellFormed(d, 0)
  {
    if skip then cut == |d| else BestChoice(p, known, offsets, d, cut, from)
  }

  // A name that is written straight reads back if and only if the recorded name that saves most does not have
  // five jumps.
  lemma WrittenReads(p: seq<byte>, q: seq<byte>, known: map<nat, Stored>, offsets: seq<nat>, r: Region, w: nat, s: Stored, d: seq<byte>, cut: nat, from: nat, skip: bool)
    requires WellFormed(d, 0) && |d| <= NAME_LIMIT && Decided(p, known, offsets, d, cut, from, skip)
    requires s.name == d && (cut < |d| ==> from in known) && s.jumps == if cut == |d| then 0 else known[from].jumps + 1
    requires Holds(q, w, s, r) && End(q, w) == r.end <= |q|
    ensures var deep := !skip && TooDeep(p, known, offsets, d);
            && (s.jumps > MAX_JUMPS <==> deep)
            && ReadName(q, w) == (if deep then ReadError else Read(d, r.end))
  {
    hide Holds, End, BestChoice, TooDeep, ReadName;
    if !skip {
      DeepChoice(p, known, offsets, d, cut, from);
    }
    ReadHeld(q, w, s, r);
  }

  // What is not spelled is not read.
  lemma HopelessUnread(q: seq<byte>, w: nat, d: seq<byte>, r: Region, e: nat)
    requires Hopeless(q, w, d, r) && r.lo <= r.hi <= r.end <= |q|
    ensures ReadName(q, w) != Read(d, e)
  {
    hide Spells, ReadName;
    assert SameOn(q, q, r);
    ReadNameMeaning(q, w, d, e);
  }

  lemma NameBytesWritten(p: seq<byte>, p': seq<byte>, q: seq<byte>, w: nat, d: seq<byte>, cut: nat, jump: nat)
    requires cut <= |d| && (if cut > 0 then Written(p, p', w, d[..cut]) else p' == p)
    requires if cut < |d| then jump < 0x4000 && Written(p', q, w + cut, U16(0xC000 + jump)) else q == p'
    requires w <= |p|
    ensures NameBytes(p, q, w, d, cut, jump)
  {
    forall x | 0 <= x < cut ensures d[x] == q[x + w - 0] {
      assert p'[x + w] == d[..cut][x];
      assert q[x + w] == p'[x + w];
    }
    if cut < |d| {
      var field := U16(0xC000 + jump);
      assert q[w + cut] == field[0] && q[w + cut + 1] == field[1];
    }
    forall x | 0 <= x < |p| && !(w <= x < w + NameSize(|d|, cut)) ensures q[x] == p[x] {
      assert p'[x] == p[x];
    }
  }
}
