/**
 What the tag recogniser of network/httpd/httpd.c amounts to: which stretches of a file are tags, and the
 output for a file, without its states.
 */
module SsiTags {
  import opened Basics
  import opened SsiScan

  // ----- tags -----

  ghost predicate IsTagOf(t: string, name: string, kind: nat, before: string, after: string) {
    && kind < 2 && AllWhite(before) && AllWhite(after) && IsName(name, kind)
    && t == LeadInOf(kind) + before + name + after + LeadOutOf(kind)
  }

  // Lead-in, white space, a name of one to eight characters, white space and lead-out.
  ghost predicate IsTag(t: string, name: string) {
    exists kind, before, after :: IsTagOf(t, name, kind, before, after)
  }

  lemma TagExamples()
    ensures IsTag("<!--# time\t-->", "time") && IsTag("/*#t*/", "t")
  {
    assert "<!--# time\t-->" == LeadInOf(0) + " " + "time" + "\t" + LeadOutOf(0);
    assert "/*#t*/" == LeadInOf(1) + "" + "t" + "" + LeadOutOf(1);
    assert IsTagOf("<!--# time\t-->", "time", 0, " ", "\t") && IsTagOf("/*#t*/", "t", 1, "", "");
  }

  // Something behind t makes it a tag.
  ghost predicate Begins(t: string) {
    exists rest, name :: rest != "" && IsTag(t + rest, name)
  }

  // ----- the output -----

  // How much of t to take, from e on: up to where it stops being the beginning of a tag.
  ghost function CutFrom(t: string, e: nat): (r: nat)
    requires 0 < e <= |t|
    ensures e <= r <= |t|
    decreases |t| - e
  {
    if e == |t| || !Begins(t[..e]) then e else CutFrom(t, e + 1)
  }

  ghost function InsertFor(t: string, insert: string -> string): string {
    if name :| IsTag(t, name) then insert(name) else ""
  }

  // The file cut where a tag ends or what might have been one does not go on, with an insert behind every tag.
  ghost function Included(t: string, insert: string -> string): string
    decreases |t|
  {
    if t == "" then ""
    else
      var e := CutFrom(t, 1);
      t[..e] + InsertFor(t[..e], insert) + Included(t[e..], insert)
  }

  // ----- from states to tags -----

  // The state s has been reached by reading t.
  ghost predicate Reached(s: Scan, t: string) {
    match s.state
    case LeadIn => s.kind < 2 && 0 < s.index < |LeadInOf(s.kind)| && s.name == "" && t == LeadInOf(s.kind)[..s.index]
    case Found => s.kind < 2 && NameSoFar(s.name, s.kind) && exists w :: AllWhite(w) && t == LeadInOf(s.kind) + w + s.name
    case LeadOut =>
      && s.kind < 2 && IsName(s.name, s.kind) && s.index < |LeadOutOf(s.kind)|
      && exists w, v :: AllWhite(w) && AllWhite(v) && t == LeadInOf(s.kind) + w + s.name + v + LeadOutOf(s.kind)[..s.index]
    case _ => false
  }

  ghost predicate NameSoFar(name: string, kind: nat) {
    name == "" || IsName(name, kind)
  }

  lemma FirstStep(c: char)
    ensures var r := Step(START, c); r.1.None? && (r.0 != START ==> Reached(r.0, [c]))
  {
    assert LeadInOf(0)[..1] == ['<'] && LeadInOf(1)[..1] == ['/'];
  }

  lemma NextStep(s: Scan, t: string, c: char)
    requires Reached(s, t)
    ensures var r := Step(s, c);
            && (r.1.Some? ==> IsTag(t + [c], r.1.value) && r.0 == START)
            && (r.0 != START ==> Reached(r.0, t + [c]))
  {
    match s.state
    case LeadIn => NextInLeadIn(s, t, c);
    case Found => NextInName(s, t, c);
    case LeadOut => NextInLeadOut(s, t, c);
  }

  lemma NextInLeadIn(s: Scan, t: string, c: char)
    requires Reached(s, t) && s.state == LeadIn
    ensures var r := Step(s, c); r.1.None? && (r.0 != START ==> Reached(r.0, t + [c]))
  {
    var l := LeadInOf(s.kind);
    if c == l[s.index] {
      assert l[..s.index + 1] == l[..s.index] + [c];
      if s.index + 1 == |l| {
        assert l[..|l|] == l && t + [c] == l + "" + "" && AllWhite("");
      }
    }
  }

  lemma NextInName(s: Scan, t: string, c: char)
    requires Reached(s, t) && s.state == Found
    ensures var r := Step(s, c); r.1.None? && (r.0 != START ==> Reached(r.0, t + [c]))
  {
    var l, o := LeadInOf(s.kind), LeadOutOf(s.kind);
    var w :| AllWhite(w) && t == l + w + s.name;
    if s.name == "" && White(c) {
      assert AllWhite(w + [c]) && t + [c] == l + (w + [c]) + s.name;
    } else if c == o[0] || White(c) {
      if s.name != "" {
        var v := if c == o[0] then "" else [c];
        var i := if c == o[0] then 1 else 0;
        assert AllWhite(v) && t + [c] == l + w + s.name + v + o[..i];
      }
    } else if |s.name| < MAX_TAG_NAME {
      assert IsName(s.name + [c], s.kind) && t + [c] == l + w + (s.name + [c]);
    }
  }

  lemma NextInLeadOut(s: Scan, t: string, c: char)
    requires Reached(s, t) && s.state == LeadOut
    ensures var r := Step(s, c);
            && (r.1.Some? ==> IsTag(t + [c], r.1.value) && r.0 == START)
            && (r.0 != START ==> Reached(r.0, t + [c]))
  {
    var l, o := LeadInOf(s.kind), LeadOutOf(s.kind);
    var w, v :| AllWhite(w) && AllWhite(v) && t == l + w + s.name + v + o[..s.index];
    if s.index == 0 && White(c) {
      assert AllWhite(v + [c]) && t + [c] == l + w + s.name + (v + [c]) + o[..0];
    } else if c == o[s.index] {
      assert o[..s.index + 1] == o[..s.index] + [c];
      assert t + [c] == l + w + s.name + v + o[..s.index + 1];
      if s.index + 1 == |o| {
        assert o[..|o|] == o;
        assert IsTagOf(t + [c], s.name, s.kind, w, v);
      }
    }
  }

  lemma BeginsBy(t: string, rest: string, name: string, kind: nat, before: string, after: string)
    requires rest != "" && IsTagOf(t + rest, name, kind, before, after)
    ensures Begins(t)
  {
    hide IsTagOf;
    assert IsTag(t + rest, name);
  }

  // Whatever has been reached can go on to a tag.
  lemma ReachedBegins(s: Scan, t: string)
    requires Reached(s, t)
    ensures Begins(t)
  {
    hide Begins, IsTagOf, AllWhite, IsName;
    var l, o := LeadInOf(s.kind), LeadOutOf(s.kind);
    match s.state
    case LeadIn =>
      LeadInBegins(s, t);
    case Found =>
      var w :| AllWhite(w) && t == l + w + s.name;
      NameBegins(s, t, w);
    case LeadOut =>
      var w, v :| AllWhite(w) && AllWhite(v) && t == l + w + s.name + v + o[..s.index];
      LeadOutBegins(s, t, w, v);
  }

  lemma LeadInBegins(s: Scan, t: string)
    requires s.kind < 2 && 0 < s.index < |LeadInOf(s.kind)| && t == LeadInOf(s.kind)[..s.index]
    ensures Begins(t)
  {
    hide Begins;
    var l, o := LeadInOf(s.kind), LeadOutOf(s.kind);
    var rest := l[s.index..] + "x" + o;
    assert l == l[..s.index] + l[s.index..];
    assert t + rest == l + "" + "x" + "" + o;
    BeginsBy(t, rest, "x", s.kind, "", "");
  }

  lemma NameBegins(s: Scan, t: string, w: string)
    requires s.kind < 2 && NameSoFar(s.name, s.kind) && AllWhite(w) && t == LeadInOf(s.kind) + w + s.name
    ensures Begins(t)
  {
    hide Begins;
    var o := LeadOutOf(s.kind);
    var name, rest := if s.name == "" then "x" else s.name, if s.name == "" then "x" + o else o;
    assert t + rest == LeadInOf(s.kind) + w + name + "" + o;
    BeginsBy(t, rest, name, s.kind, w, "");
  }

  lemma LeadOutWhole(front: string, o: string, i: nat)
    requires i <= |o|
    ensures front + o[..i] + o[i..] == front + o
  {
    assert o == o[..i] + o[i..];
  }

  lemma LeadOutBegins(s: Scan, t: string, w: string, v: string)
    requires s.kind < 2 && IsName(s.name, s.kind) && s.index < |LeadOutOf(s.kind)| && AllWhite(w) && AllWhite(v)
    requires t == LeadInOf(s.kind) + w + s.name + v + LeadOutOf(s.kind)[..s.index]
    ensures Begins(t)
  {
    hide Begins, AllWhite, IsName, LeadInOf, LeadOutOf;
    var o := LeadOutOf(s.kind);
    var front := LeadInOf(s.kind) + w + s.name + v;
    LeadOutWhole(front, o, s.index);
    BeginsBy(t, o[s.index..], s.name, s.kind, w, v);
  }

  // ----- from tags to states -----

  // In the middle of a tag the scanner is not back at its start.
  lemma TagRun(t: string, name: string, kind: nat, before: string, after: string, x: nat)
    requires IsTagOf(t, name, kind, before, after) && 0 < x < |t|
    ensures ScanAt(t, x) != START
  {
    hide ScanAt, Step, TextAt, AllWhite, IsName;
    assert name != "" by { NameSome(name, kind); }
    TagParts(t, name, kind, before, after);
    var a := |LeadInOf(kind)|;
    var b := a + |before|;
    ScanStart(t);
    ScanLeadIn(t, 0, kind, if x <= a then x else a);
    if x > a {
      ScanWhite(t, a, before, if x <= b then x - a else |before|);
      if x > b {
        NameRun(t, b, kind, name, after, x);
      }
    }
  }

  lemma NameSome(name: string, kind: nat)
    requires IsName(name, kind)
    ensures name != ""
  {
  }

  lemma NameRun(t: string, b: nat, kind: nat, name: string, after: string, x: nat)
    requires kind < 2 && b <= |t| && ScanAt(t, b) == Scan(Found, kind, 0, "") && IsName(name, kind) && AllWhite(after)
    requires TextAt(t, b, name) && TextAt(t, b + |name|, after) && TextAt(t, b + |name| + |after|, LeadOutOf(kind))
    requires b < x < b + |name| + |after| + |LeadOutOf(kind)|
    ensures x <= |t| && ScanAt(t, x) != START
  {
    hide ScanAt, Step, TextAt, AllWhite, IsName;
    NameSome(name, kind);
    InText(t, b + |name| + |after|, LeadOutOf(kind));
    var c := b + |name|;
    var d := c + |after|;
    ScanName(t, b, kind, name, if x <= c then x - b else |name|);
    assert name[..|name|] == name;
    if x > c {
      var k := if x <= d then x - c else |after|;
      TextPrefix(t, c, after, k);
      ScanGap(t, c, kind, name, after[..k]);
      if x > d {
        ScanLeadOut(t, d, kind, name, x - d);
      }
    }
  }

  lemma InText(t: string, i: nat, w: string)
    requires TextAt(t, i, w)
    ensures i + |w| <= |t|
  {
  }

  lemma TextPrefix(t: string, i: nat, w: string, k: nat)
    requires TextAt(t, i, w) && AllWhite(w) && k <= |w|
    ensures TextAt(t, i, w[..k]) && AllWhite(w[..k])
  {
  }

  lemma ScanStart(t: string)
    ensures ScanAt(t, 0) == START
  {
  }

  lemma TagParts(t: string, name: string, kind: nat, before: string, after: string)
    requires IsTagOf(t, name, kind, before, after)
    ensures var a := |LeadInOf(kind)|; var b := a + |before|; var c := b + |name|; var d := c + |after|;
            && TextAt(t, 0, LeadInOf(kind)) && TextAt(t, a, before) && TextAt(t, b, name) && TextAt(t, c, after)
            && TextAt(t, d, LeadOutOf(kind)) && d + |LeadOutOf(kind)| == |t|
    ensures kind < 2 && AllWhite(before) && AllWhite(after) && IsName(name, kind)
  {
  }

  lemma TagFound(t: string, name: string)
    requires IsTag(t, name)
    ensures TagAt(t, |t|) == Some(name)
  {
    hide *;
    assert exists kind, before, after :: IsTagOf(t, name, kind, before, after) by { TagHas(t, name); }
    var kind, before, after :| IsTagOf(t, name, kind, before, after);
    TagParts(t, name, kind, before, after);
    ScanStart(t);
    TagRecognised(t, 0, kind, before, name, after);
  }

  lemma TagHas(t: string, name: string)
    requires IsTag(t, name)
    ensures exists kind, before, after :: IsTagOf(t, name, kind, before, after)
  {
  }

  // The beginning of a tag is read without going back to the start.
  lemma BeginsRun(t: string, x: nat)
    requires Begins(t) && 0 < x <= |t|
    ensures ScanAt(t, x) != START
  {
    hide ScanAt;
    var rest, name :| rest != "" && IsTag(t + rest, name);
    var kind, before, after :| IsTagOf(t + rest, name, kind, before, after);
    TagRun(t + rest, name, kind, before, after, x);
    ScanStart(t);
    ScanStart(t + rest);
    SameRun(t, 0, t + rest, x);
  }

  // Reading does not depend on what was in front of a start.
  lemma {:induction false} SameRun(disk: string, a: nat, t: string, x: nat)
    requires a + x <= |disk| && x <= |t| && ScanAt(disk, a) == START && disk[a..a + x] == t[..x]
    ensures ScanAt(disk, a + x) == ScanAt(t, x) && (x > 0 ==> TagAt(disk, a + x) == TagAt(t, x))
    decreases x
  {
    hide Step;
    if x > 0 {
      assert disk[a..a + x - 1] == disk[a..a + x][..x - 1] && t[..x - 1] == t[..x][..x - 1];
      SameRun(disk, a, t, x - 1);
      assert disk[a + x - 1] == disk[a..a + x][x - 1] == t[x - 1];
    }
  }

  // What has been read since the last start has been reached.
  lemma {:induction false} RunReached(t: string, x: nat)
    requires 0 < x <= |t| && forall y :: 0 < y <= x ==> ScanAt(t, y) != START
    ensures Reached(ScanAt(t, x), t[..x])
    decreases x
  {
    hide Step, Reached, ScanAt;
    ScanNext(t, x - 1);
    assert t[..x] == t[..x - 1] + [t[x - 1]];
    if x == 1 {
      ScanStart(t);
      FirstStep(t[0]);
      assert t[..1] == [t[0]];
    } else {
      RunReached(t, x - 1);
      NextStep(ScanAt(t, x - 1), t[..x - 1], t[x - 1]);
    }
  }

  lemma RunTag(t: string, name: string)
    requires t != "" && TagAt(t, |t|) == Some(name) && forall y :: 0 < y < |t| ==> ScanAt(t, y) != START
    ensures IsTag(t, name)
  {
    hide Step, Reached, ScanAt, TagAt, IsTag;
    var x := |t| - 1;
    ScanNext(t, x);
    assert t == t[..x] + [t[x]];
    if x == 0 {
      ScanStart(t);
      FirstStep(t[0]);
    } else {
      RunReached(t, x);
      NextStep(ScanAt(t, x), t[..x], t[x]);
    }
  }

  // ----- the theorems -----

  // The last start up to k.
  ghost function LastStart(disk: string, k: nat): (a: nat)
    requires k <= |disk|
    ensures a <= k && ScanAt(disk, a) == START && forall x :: a < x <= k ==> ScanAt(disk, x) != START
  {
    if ScanAt(disk, k) == START then k else LastStart(disk, k - 1)
  }

  /** What is recognised is a tag: it stands in the file, and ends where it is recognised. */
  lemma TagSound(disk: string, k: nat, name: string)
    requires k <= |disk| && TagAt(disk, k) == Some(name)
    ensures exists a :: 0 <= a < k && ScanAt(disk, a) == START && IsTag(disk[a..k], name)
  {
    hide ScanAt, IsTag, TagAt;
    TagBehind(disk, k);
    var a := LastStart(disk, k - 1);
    var t := disk[a..k];
    forall y | 0 < y < |t| ensures ScanAt(t, y) != START {
      assert disk[a..a + y] == t[..y];
      SameRun(disk, a, t, y);
    }
    assert disk[a..k] == t[..|t|];
    SameRun(disk, a, t, |t|);
    RunTag(t, name);
  }

  lemma TagBehind(disk: string, k: nat)
    requires k <= |disk| && TagAt(disk, k).Some?
    ensures k > 0
  {
  }

  // Some tag ends at e.
  ghost predicate EndsTag(disk: string, e: nat) {
    exists a, name :: 0 <= a < e <= |disk| && IsTag(disk[a..e], name)
  }

  lemma TagEnds(disk: string, k: nat)
    requires k <= |disk| && TagAt(disk, k).Some?
    ensures EndsTag(disk, k)
  {
    hide ScanAt, TagAt, IsTag;
    TagSound(disk, k, TagAt(disk, k).value);
  }

  // From a start, the next piece: no start and no tag inside; at its end a start, unless the file ends.
  lemma PieceRun(disk: string, a: nat, e: nat)
    requires a + e <= |disk| && ScanAt(disk, a) == START && 0 < e && e == CutFrom(disk[a..], 1)
    ensures forall k :: a < k < a + e ==> TagAt(disk, k).None?
    ensures a + e < |disk| ==> ScanAt(disk, a + e) == START
    ensures forall name :: TagAt(disk, a + e) == Some(name) <==> IsTag(disk[a..a + e], name)
  {
    hide ScanAt, TagAt, Begins, IsTag;
    var t := disk[a..];
    CutInside(t, 1);
    forall k | a < k < a + e ensures ScanAt(disk, k) != START && TagAt(disk, k).None? {
      var x := k - a;
      assert Begins(t[..x]);
      assert t[..x] == disk[a..a + x] && t[..x][..x] == t[..x];
      BeginsRun(t[..x], x);
      SameRun(disk, a, t[..x], x);
      TagThenStart(disk, k);
    }
    var p := disk[a..a + e];
    assert p == t[..e] && p[..e] == p;
    SameRun(disk, a, p, e);
    forall y | 0 < y < e ensures ScanAt(p, y) != START {
      assert disk[a..a + y] == p[..y];
      SameRun(disk, a, p, y);
      assert a < a + y < a + e;
      assert ScanAt(disk, a + y) != START;
    }
    forall name ensures TagAt(disk, a + e) == Some(name) <==> IsTag(p, name) {
      if TagAt(disk, a + e) == Some(name) {
        RunTag(p, name);
      }
      if IsTag(p, name) {
        TagFound(p, name);
      }
    }
    if a + e < |disk| && ScanAt(disk, a + e) != START {
      RunReached(p, e);
      ReachedBegins(ScanAt(p, e), p[..e]);
    }
  }

  lemma TagThenStart(disk: string, k: nat)
    requires k <= |disk|
    ensures TagAt(disk, k).Some? ==> ScanAt(disk, k) == START
  {
  }

  lemma {:induction false} CutInside(t: string, e: nat)
    requires 0 < e <= |t|
    ensures var r := CutFrom(t, e); (forall x :: e <= x < r ==> Begins(t[..x])) && (r < |t| ==> !Begins(t[..r]))
    decreases |t| - e
  {
    hide Begins;
    if e < |t| && Begins(t[..e]) {
      CutInside(t, e + 1);
    }
  }

  lemma {:induction false} OutFrom(disk: string, insert: string -> string, a: nat)
    requires a <= |disk| && (a < |disk| ==> ScanAt(disk, a) == START)
    ensures Out(disk, insert, |disk|) == Out(disk, insert, a) + Included(disk[a..], insert)
    decreases |disk| - a
  {
    hide *;
    IncludedIs(disk[a..], insert);
    if a < |disk| {
      var t := disk[a..];
      var e := CutFrom(t, 1);
      OutPiece(disk, insert, a, e);
      OutFrom(disk, insert, a + e);
      assert t[..e] == disk[a..a + e] && t[e..] == disk[a + e..];
      PieceOut(Out(disk, insert, a), t[..e], InsertFor(t[..e], insert), Included(t[e..], insert));
    } else {
      assert Out(disk, insert, a) + "" == Out(disk, insert, a);
    }
  }

  lemma IncludedIs(t: string, insert: string -> string)
    ensures t == "" ==> Included(t, insert) == ""
    ensures t != "" ==> var e := CutFrom(t, 1); Included(t, insert) == t[..e] + InsertFor(t[..e], insert) + Included(t[e..], insert)
  {
    hide CutFrom, InsertFor;
  }

  // The output for one piece.
  lemma OutPiece(disk: string, insert: string -> string, a: nat, e: nat)
    requires a < |disk| && ScanAt(disk, a) == START && e == CutFrom(disk[a..], 1)
    ensures Out(disk, insert, a + e) == Out(disk, insert, a) + (disk[a..a + e] + InsertFor(disk[a..a + e], insert))
    ensures a + e < |disk| ==> ScanAt(disk, a + e) == START
  {
    hide ScanAt, TagAt, IsTag, Out, CutFrom, InsertFor, Plain;
    PieceRun(disk, a, e);
    PlainPiece(disk, a, e);
    OutPlain(disk, insert, a, a + e - 1);
    OutAt(disk, insert, a + e);
    var p := disk[a..a + e];
    InsertIs(p, insert, TagAt(disk, a + e));
    assert p == disk[a..a + e - 1] + [disk[a + e - 1]];
    assert Out(disk, insert, a) + disk[a..a + e - 1] + [disk[a + e - 1]] == Out(disk, insert, a) + p;
    if TagAt(disk, a + e).None? {
      assert p + "" == p;
    } else {
      assert Out(disk, insert, a) + p + insert(TagAt(disk, a + e).value) == Out(disk, insert, a) + (p + insert(TagAt(disk, a + e).value));
    }
  }

  lemma PlainPiece(disk: string, a: nat, e: nat)
    requires 0 < e && a + e <= |disk| && forall k :: a < k < a + e ==> TagAt(disk, k).None?
    ensures Plain(disk, a, a + e - 1)
  {
    hide TagAt;
  }

  lemma InsertIs(t: string, insert: string -> string, tag: Option<string>)
    requires forall name :: tag == Some(name) <==> IsTag(t, name)
    ensures InsertFor(t, insert) == match tag { case None => "" case Some(name) => insert(name) }
  {
    hide IsTag;
  }

  lemma PieceOut(a: string, b: string, i: string, r: string)
    ensures a + (b + i) + r == a + (b + i + r)
  {
  }

  /** The output for a file: the file, with the inserts behind its tags. */
  lemma OutIncluded(disk: string, insert: string -> string)
    ensures Out(disk, insert, |disk|) == Included(disk, insert)
  {
    hide Out, Included;
    ScanStart(disk);
    OutFrom(disk, insert, 0);
    OutNothing(disk, insert);
    assert disk[0..] == disk;
  }

  /** A file in which no tag ends is sent as it is. */
  lemma NoTags(disk: string, insert: string -> string)
    requires forall e: nat :: !EndsTag(disk, e)
    ensures Included(disk, insert) == disk
  {
    hide ScanAt, TagAt, IsTag, Out, Included;
    forall k | 0 < k <= |disk| ensures TagAt(disk, k).None? {
      if TagAt(disk, k).Some? {
        TagEnds(disk, k);
      }
    }
    OutIncluded(disk, insert);
    OutNothing(disk, insert);
    OutPlain(disk, insert, 0, |disk|);
    assert disk[0..|disk|] == disk;
  }

  lemma OutNothing(disk: string, insert: string -> string)
    ensures Out(disk, insert, 0) == ""
  {
  }
}
