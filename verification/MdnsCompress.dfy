/**
 Name compression: when may a pointer stand for the rest of a name
 (network/lwip_mdns/mdns_server.c, `mdns_compress_domain`).
 */
module MdnsCompress {
  import opened MdnsName

  const DOMAIN_JUMP_SIZE := 2

  // ----- shapes of names in packets -----

  // A name written out in full, from its label at i to the zero marker.
  lemma {:induction false} LiteralDenotes(p: seq<byte>, off: nat, n: seq<byte>, i: nat, r: Region)
    requires WellFormed(n, i) && SameBytes(n, i, p, off, |n| - i)
    ensures Denotes(p, off, n, i, 0)
    ensures End(p, off) == off + |n| - i
    ensures r.HasSpan(off, off + |n| - i) ==> Within(p, off, n, i, 0, r)
    ensures Tight(p, off, n, i, 0)
    decreases |n| - i
  {
    assert n[i] == p[off];
    if n[i] != 0 {
      var c := 1 + n[i];
      LiteralDenotes(p, off + c, n, i + c, r);
    }
  }

  // Labels written out in front of a name that is in the packet already.
  lemma {:induction false} LiteralPrefix(p: seq<byte>, off: nat, n: seq<byte>, i: nat, k: nat, jumps: nat, r: Region)
    requires WellFormed(n, i) && Boundary(n, i, k) && SameBytes(n, i, p, off, k - i)
    requires Denotes(p, off + k - i, n, k, jumps)
    ensures Denotes(p, off, n, i, jumps)
    ensures End(p, off) == End(p, off + k - i)
    ensures r.HasSpan(off, off + k - i) && Within(p, off + k - i, n, k, jumps, r) ==> Within(p, off, n, i, jumps, r)
    ensures Tight(p, off + k - i, n, k, jumps) ==> Tight(p, off, n, i, jumps)
    decreases |n| - i
  {
    if k != i {
      assert n[i] == p[off];
      var c := 1 + n[i];
      LiteralPrefix(p, off + c, n, i + c, k, jumps, r);
    }
  }

  // How many of the bytes of the name at off are literal.
  function PhysicalEnd(p: seq<byte>, off: nat, jumps: nat): int {
    End(p, off) - (if jumps > 0 then DOMAIN_JUMP_SIZE else 0)
  }

  // The first pointer of a compressed name sits on a label boundary; the bytes before it are literal.
  lemma {:induction false} PhysicalPart(p: seq<byte>, off: nat, n: seq<byte>, i: nat, jumps: nat)
    requires Denotes(p, off, n, i, jumps) && WellFormed(n, i) && End(p, off) <= |p|
    ensures off <= PhysicalEnd(p, off, jumps)
    ensures SameBytes(n, i, p, off, PhysicalEnd(p, off, jumps) - off)
    ensures jumps == 0 ==> End(p, off) - off == |n| - i
    ensures jumps > 0 ==>
              && var k := PhysicalEnd(p, off, jumps) - off;
              && Boundary(n, i, i + k) && IsJump(p[off + k])
              && Denotes(p, off + k, n, i + k, jumps)
    decreases |n| - i
  {
    var c := Get(p, off);
    if !IsJump(c) && c != 0 {
      assert n[i] == p[off];
      PhysicalPart(p, off + 1 + c, n, i + 1 + c, jumps);
    }
  }

  // ----- the compressor's test -----

  // The offset in t at which the suffix of d from w would start.
  function MatchPos(d: seq<byte>, t: seq<byte>, w: nat): int {
    |t| - (|d| - w)
  }

  // The suffix of d from w is longer than a pointer and equals the end of t, starting before
  // the pointer (or the last two bytes) of t's own tlen bytes.
  ghost predicate Match(d: seq<byte>, t: seq<byte>, tlen: nat, w: nat) {
    && w <= |d| && DOMAIN_JUMP_SIZE < |d| - w <= |t|
    && MatchPos(d, t, w) + DOMAIN_JUMP_SIZE < tlen
    && SameBytes(d, w, t, MatchPos(d, t, w), |d| - w)
  }

  // len is the first label boundary of d whose suffix matches, |d| if there is none. A suffix of 256 bytes,
  // whose length does not fit into eight bits, is not looked at.
  ghost predicate FirstMatch(d: seq<byte>, t: seq<byte>, tlen: nat, len: nat)
    requires WellFormed(d, 0)
  {
    && (len == |d| || (Boundary(d, 0, len) && |d| - len < 256 && Match(d, t, tlen, len)))
    && forall w: nat :: w < len && Boundary(d, 0, w) && |d| - w < 256 ==> !Match(d, t, tlen, w)
  }

  // At w the suffix of d is as long as an end of t, and either starts at or beyond the pointer of t or equals it.
  ghost predicate Halts(d: seq<byte>, t: seq<byte>, tlen: nat, w: nat) {
    && w <= |d| && DOMAIN_JUMP_SIZE < |d| - w <= |t|
    && (tlen <= MatchPos(d, t, w) + DOMAIN_JUMP_SIZE || SameBytes(d, w, t, MatchPos(d, t, w), |d| - w))
  }

  // The position in d is kept in eight bits: a scan that comes to the end of a name of 256 bytes does not see it
  // and goes on behind the name.
  ghost predicate RunsOff(d: seq<byte>, t: seq<byte>, tlen: nat)
    requires WellFormed(d, 0)
  {
    |d| == 256 && forall w: nat :: 0 < w && Boundary(d, 0, w) ==> !Halts(d, t, tlen, w)
  }

  // Equal suffixes mean the same.
  lemma {:induction false} DenotesSuffix(p: seq<byte>, off: nat, t: seq<byte>, i: nat, d: seq<byte>, w: nat, jumps: nat, r: Region)
    requires Denotes(p, off, t, i, jumps)
    requires i <= |t| && w <= |d| && |t| - i == |d| - w && SameBytes(d, w, t, i, |d| - w)
    ensures Denotes(p, off, d, w, jumps)
    ensures Within(p, off, t, i, jumps, r) ==> Within(p, off, d, w, jumps, r)
    ensures Tight(p, off, t, i, jumps) ==> Tight(p, off, d, w, jumps)
    decreases jumps, |t| - i
  {
    var c := Get(p, off);
    if IsJump(c) {
      DenotesSuffix(p, JumpTarget(c, p[off + 1]), t, i, d, w, jumps - 1, r);
    } else if c == 0 {
      assert d[w] == t[i];
    } else {
      forall x | w <= x < w + 1 + c ensures d[x] == p[x + off - w] {
        assert d[x] == t[x + i - w];
      }
      DenotesWellFormed(p, off + 1 + c, t, i + 1 + c, jumps);
      DenotesSuffix(p, off + 1 + c, t, i + 1 + c, d, w + 1 + c, jumps, r);
    }
  }

  lemma {:induction false} BoundarySuffix(t: seq<byte>, i: nat, d: seq<byte>, w: nat, k: nat)
    requires WellFormed(t, i) && WellFormed(d, w) && |t| - i == |d| - w && SameBytes(d, w, t, i, |d| - w)
    ensures Boundary(t, i, i + k) <==> Boundary(d, w, w + k)
    decreases |t| - i
  {
    assert d[w] == t[i];
    var c := 1 + t[i];
    if k >= c && t[i] != 0 {
      BoundarySuffix(t, i + c, d, w + c, k - c);
    }
  }

  // A name whose literal bytes run into a pointer is read only if the pointer is met
  // between two of its labels.
  lemma {:induction false} PointerBetweenLabels(p: seq<byte>, off: nat, d: seq<byte>, w: nat, k: nat, jumps: nat)
    requires WellFormed(d, w) && w + k < |d| && off + k < |p| && SameBytes(d, w, p, off, k)
    requires IsJump(p[off + k]) && !IsJump(d[w + k])
    requires Denotes(p, off, d, w, jumps)
    ensures Boundary(d, w, w + k)
    decreases |d| - w
  {
    if k > 0 {
      assert d[w] == p[off];
      var c := 1 + d[w];
      if c <= k && d[w] != 0 {
        PointerBetweenLabels(p, off + c, d, w + c, k - c, jumps);
      }
    }
  }

  // The name matched against has no pointer, or its pointer falls between two labels of the suffix.
  ghost predicate Aligned(p: seq<byte>, off: nat, t: seq<byte>, jumps: nat, d: seq<byte>, w: nat)
    requires WellFormed(d, w)
  {
    jumps == 0 ||
    (MatchPos(d, t, w) <= PhysicalEnd(p, off, jumps) - off &&
     Boundary(d, w, w + PhysicalEnd(p, off, jumps) - off - MatchPos(d, t, w)))
  }

  lemma SameBytesVia(d: seq<byte>, w: nat, t: seq<byte>, pos: nat, p: seq<byte>, off: nat, len: nat)
    requires SameBytes(d, w, t, pos, len) && SameBytes(t, 0, p, off, pos + len)
    ensures SameBytes(d, w, p, off + pos, len)
  {
    forall x | w <= x < w + len ensures d[x] == p[x + off + pos - w] {
      assert d[x] == t[x + pos - w];
    }
  }

  // The literal bytes of a name are within its region.
  lemma {:induction false} WithinSpan(p: seq<byte>, off: nat, n: seq<byte>, i: nat, jumps: nat, r: Region)
    requires Denotes(p, off, n, i, jumps) && WellFormed(n, i) && End(p, off) <= |p| && Within(p, off, n, i, jumps, r)
    ensures off <= PhysicalEnd(p, off, jumps) && r.HasSpan(off, PhysicalEnd(p, off, jumps))
    decreases |n| - i
  {
    PhysicalPart(p, off, n, i, jumps);
    var c := Get(p, off);
    if !IsJump(c) && c != 0 {
      assert n[i] == p[off];
      PhysicalPart(p, off + 1 + c, n, i + 1 + c, jumps);
      WithinSpan(p, off + 1 + c, n, i + 1 + c, jumps, r);
    }
  }

  // The literal bytes of t up to `end`, then its pointer.
  lemma PointerDenotes(p: seq<byte>, off: nat, t: seq<byte>, end: nat, jumps: nat, d: seq<byte>, w: nat, pos: nat, r: Region)
    requires SameBytes(t, 0, p, off, end) && Denotes(p, off + end, t, end, jumps)
    requires pos <= end <= |t| && w <= |d| && |t| - pos == |d| - w && SameBytes(d, w, t, pos, |d| - w)
    requires WellFormed(d, w) && Boundary(d, w, w + end - pos)
    ensures Denotes(p, off + pos, d, w, jumps)
    ensures Tight(p, off + end, t, end, jumps) ==> Tight(p, off + pos, d, w, jumps)
    ensures r.HasSpan(off + pos, off + end) && Within(p, off + end, t, end, jumps, r) ==> Within(p, off + pos, d, w, jumps, r)
  {
    hide Denotes, WellFormed, Boundary, End, Within, Tight;
    var k := end - pos;
    SameBytesVia(d, w, t, pos, p, off, k);
    DenotesSuffix(p, off + end, t, end, d, w + k, jumps, r);
    LiteralPrefix(p, off + pos, d, w, w + k, jumps, r);
  }

  lemma UncompressedDenotes(p: seq<byte>, off: nat, t: seq<byte>, d: seq<byte>, w: nat, pos: nat, r: Region)
    requires SameBytes(t, 0, p, off, |t|)
    requires w <= |d| && pos + |d| - w == |t| && SameBytes(d, w, t, pos, |d| - w)
    requires WellFormed(d, w)
    ensures Denotes(p, off + pos, d, w, 0) && Tight(p, off + pos, d, w, 0)
    ensures r.HasSpan(off + pos, off + |t|) ==> Within(p, off + pos, d, w, 0, r)
  {
    SameBytesVia(d, w, t, pos, p, off, |d| - w);
    LiteralDenotes(p, off + pos, d, w, r);
  }

  lemma SpanTail(r: Region, a: nat, b: nat, c: nat)
    requires r.HasSpan(a, c) && a <= b <= c
    ensures r.HasSpan(b, c)
  {
  }

  /** The place of an aligned match holds the suffix, with the bytes and the pointers of the name matched against. */
  lemma AlignedDenotes(p: seq<byte>, off: nat, t: seq<byte>, jumps: nat, d: seq<byte>, w: nat, r: Region)
    requires Denotes(p, off, t, 0, jumps) && WellFormed(t, 0) && End(p, off) <= |p|
    requires WellFormed(d, w) && Match(d, t, End(p, off) - off, w)
    requires Aligned(p, off, t, jumps, d, w)
    ensures Denotes(p, off + MatchPos(d, t, w), d, w, jumps)
    ensures Within(p, off, t, 0, jumps, r) ==> Within(p, off + MatchPos(d, t, w), d, w, jumps, r)
    ensures Tight(p, off, t, 0, jumps) ==> Tight(p, off + MatchPos(d, t, w), d, w, jumps)
  {
    hide Denotes, WellFormed, Boundary, Over, End, Within, Tight, Region.HasSpan;
    var pos := MatchPos(d, t, w);
    PhysicalPart(p, off, t, 0, jumps);
    if Within(p, off, t, 0, jumps, r) {
      WithinSpan(p, off, t, 0, jumps, r);
      SpanTail(r, off, off + pos, PhysicalEnd(p, off, jumps));
    }
    if jumps == 0 {
      UncompressedDenotes(p, off, t, d, w, pos, r);
    } else {
      var end := PhysicalEnd(p, off, jumps) - off;
      LiteralSuffix(p, off, t, 0, jumps, end, r);
      PointerDenotes(p, off, t, end, jumps, d, w, pos, r);
    }
  }

  lemma UnalignedUnreadable(p: seq<byte>, off: nat, t: seq<byte>, jumps: nat, d: seq<byte>, w: nat, j: nat)
    requires Denotes(p, off, t, 0, jumps) && WellFormed(t, 0) && End(p, off) <= |p|
    requires WellFormed(d, w) && Match(d, t, End(p, off) - off, w)
    requires Denotes(p, off + MatchPos(d, t, w), d, w, j)
    ensures Aligned(p, off, t, jumps, d, w)
  {
    hide Denotes, Boundary, End;
    var pos := MatchPos(d, t, w);
    if jumps > 0 {
      PhysicalPart(p, off, t, 0, jumps);
      var end := PhysicalEnd(p, off, jumps) - off;
      var k := end - pos;
      SameBytesVia(d, w, t, pos, p, off, k);
      BoundaryWellFormed(t, 0, end);
      assert d[w + k] == t[pos + k];
      PointerBetweenLabels(p, off + pos, d, w, k, j);
    }
  }

  ghost predicate Means(p: seq<byte>, off: nat, d: seq<byte>, w: nat) {
    exists j: nat :: Denotes(p, off, d, w, j)
  }

  /** A pointer to the matching place means the suffix exactly when the name matched against
      has no pointer itself, or that pointer falls between two labels of the suffix. */
  lemma MatchMeaning(p: seq<byte>, off: nat, t: seq<byte>, jumps: nat, d: seq<byte>, w: nat)
    requires Denotes(p, off, t, 0, jumps) && WellFormed(t, 0) && End(p, off) <= |p|
    requires WellFormed(d, w) && Match(d, t, End(p, off) - off, w)
    ensures Means(p, off + MatchPos(d, t, w), d, w) <==> Aligned(p, off, t, jumps, d, w)
  {
    var pos := off + MatchPos(d, t, w);
    if Aligned(p, off, t, jumps, d, w) {
      AlignedDenotes(p, off, t, jumps, d, w, Below(0));
    } else if Means(p, pos, d, w) {
      var j: nat :| Denotes(p, pos, d, w, j);
      UnalignedUnreadable(p, off, t, jumps, d, w, j);
    }
  }

  // ----- when alignment is certain -----

  // From i on, every length byte of n is in lengths and no character is.
  ghost predicate Over(n: seq<byte>, i: nat, lengths: set<byte>)
    requires WellFormed(n, i)
    decreases |n| - i
  {
    n[i] in lengths &&
    (n[i] != 0 ==>
      (forall x :: i < x < i + 1 + n[i] && x < |n| ==> n[x] !in lengths) && Over(n, i + 1 + n[i], lengths))
  }

  lemma {:induction false} OverBoundary(n: seq<byte>, i: nat, lengths: set<byte>, k: nat)
    requires WellFormed(n, i) && Over(n, i, lengths) && i <= k < |n|
    ensures Boundary(n, i, k) <==> n[k] in lengths
    decreases |n| - i
  {
    if k >= i + 1 + n[i] && n[i] != 0 {
      OverBoundary(n, i + 1 + n[i], lengths, k);
    }
  }

  lemma MatchAtBoundary(t: seq<byte>, d: seq<byte>, w: nat, tlen: nat, lengths: set<byte>)
    requires WellFormed(t, 0) && WellFormed(d, 0) && Boundary(d, 0, w) && Match(d, t, tlen, w)
    requires Over(t, 0, lengths) && Over(d, 0, lengths)
    ensures Boundary(t, 0, MatchPos(d, t, w))
  {
    var pos := MatchPos(d, t, w);
    OverBoundary(d, 0, lengths, w);
    assert d[w] == t[pos];
    OverBoundary(t, 0, lengths, pos);
  }

  lemma BoundaryCarries(t: seq<byte>, pos: nat, end: nat, d: seq<byte>, w: nat)
    requires WellFormed(t, 0) && Boundary(t, 0, pos) && Boundary(t, 0, end) && pos <= end
    requires WellFormed(d, w) && |t| - pos == |d| - w && SameBytes(d, w, t, pos, |d| - w)
    ensures Boundary(d, w, w + end - pos)
  {
    BoundaryWellFormed(t, 0, pos);
    BoundaryVia(t, 0, pos, end);
    BoundarySuffix(t, pos, d, w, end - pos);
  }

  /** When no label character equals a length byte, every match is aligned. */
  lemma DisjointAligned(p: seq<byte>, off: nat, t: seq<byte>, jumps: nat, d: seq<byte>, w: nat, lengths: set<byte>)
    requires Denotes(p, off, t, 0, jumps) && WellFormed(t, 0) && End(p, off) <= |p|
    requires WellFormed(d, 0) && Boundary(d, 0, w) && WellFormed(d, w)
    requires Match(d, t, End(p, off) - off, w)
    requires Over(t, 0, lengths) && Over(d, 0, lengths)
    ensures Aligned(p, off, t, jumps, d, w)
  {
    hide Denotes, WellFormed, Boundary, Over, End;
    var pos := MatchPos(d, t, w);
    MatchAtBoundary(t, d, w, End(p, off) - off, lengths);
    if jumps > 0 {
      PhysicalPart(p, off, t, 0, jumps);
      BoundaryCarries(t, pos, PhysicalEnd(p, off, jumps) - off, d, w);
    }
  }

  // ----- how long chains of pointers get -----

  // Every pointer stands for at least one label and leads to a label, not to another pointer.
  ghost predicate Tight(p: seq<byte>, off: nat, n: seq<byte>, i: nat, jumps: nat)
    requires Denotes(p, off, n, i, jumps)
    decreases jumps, |n| - i
  {
    var c := Get(p, off);
    if IsJump(c) then
      var t := JumpTarget(c, p[off + 1]);
      !IsJump(Get(p, t)) && Get(p, t) != 0 && Tight(p, t, n, i, jumps - 1)
    else
      c != 0 ==> Tight(p, off + 1 + c, n, i + 1 + c, jumps)
  }

  /** A name needs at most as many jumps as it has labels, one fewer if it starts with a label. */
  lemma {:induction false} TightJumps(p: seq<byte>, off: nat, n: seq<byte>, i: nat, jumps: nat)
    requires Denotes(p, off, n, i, jumps) && Tight(p, off, n, i, jumps) && WellFormed(n, i)
    ensures jumps <= Labels(n, i)
    ensures !IsJump(Get(p, off)) && Get(p, off) != 0 ==> jumps < Labels(n, i)
    decreases jumps, |n| - i
  {
    var c := Get(p, off);
    if IsJump(c) {
      TightJumps(p, JumpTarget(c, p[off + 1]), n, i, jumps - 1);
    } else if c != 0 {
      assert n[i] == p[off];
      TightJumps(p, off + 1 + c, n, i + 1 + c, jumps);
    }
  }

  // What follows a label of a name's literal part is a name, and needs nothing more.
  lemma {:induction false} LiteralSuffix(p: seq<byte>, off: nat, n: seq<byte>, i: nat, jumps: nat, k: nat, r: Region)
    requires Denotes(p, off, n, i, jumps) && WellFormed(n, i) && Boundary(n, i, k)
    requires End(p, off) <= |p| && off + k - i <= PhysicalEnd(p, off, jumps)
    ensures Denotes(p, off + k - i, n, k, jumps)
    ensures Tight(p, off, n, i, jumps) ==> Tight(p, off + k - i, n, k, jumps)
    ensures Within(p, off, n, i, jumps, r) ==> Within(p, off + k - i, n, k, jumps, r)
    decreases |n| - i
  {
    if k != i {
      var c := Get(p, off);
      if !IsJump(c) {
        assert n[i] == p[off];
        LiteralSuffix(p, off + 1 + c, n, i + 1 + c, jumps, k, r);
      }
    }
  }

  lemma {:induction false} TightFrame(p: seq<byte>, q: seq<byte>, off: nat, n: seq<byte>, i: nat, jumps: nat, r: Region)
    requires Denotes(p, off, n, i, jumps) && Denotes(q, off, n, i, jumps)
    requires Tight(p, off, n, i, jumps) && Within(p, off, n, i, jumps, r) && SameOn(p, q, r)
    ensures Tight(q, off, n, i, jumps)
    decreases jumps, |n| - i
  {
    var c := Get(p, off);
    assert q[off] == p[off];
    if IsJump(c) {
      assert q[off + 1] == p[off + 1];
      var t := JumpTarget(c, p[off + 1]);
      assert r.Has(t) && q[t] == p[t];
      TightFrame(p, q, t, n, i, jumps - 1, r);
    } else if c != 0 {
      TightFrame(p, q, off + 1 + c, n, i + 1 + c, jumps, r);
    }
  }
}
