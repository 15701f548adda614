/**
 Server-side includes as one pass over a file (network/httpd/httpd.c): the tag recogniser of
 `http_send_data_ssi` as a machine that reads one character at a time, and the output it calls for.
 */
module SsiScan {
  import opened Basics

  // `LWIP_HTTPD_MAX_TAG_NAME_LEN`
  const MAX_TAG_NAME := 8

  datatype TagState = Outside | LeadIn | Found | LeadOut | Sending

  // What has been recognised: the kind of tag, a position in a marker, the name.
  datatype Scan = Scan(state: TagState, kind: nat, index: nat, name: string)

  const START := Scan(Outside, 0, 0, "")

  // `http_ssi_tag_desc`
  function LeadInOf(kind: nat): (s: string)
    ensures |s| >= 3
  {
    if kind == 0 then "<!--#" else "/*#"
  }

  function LeadOutOf(kind: nat): (s: string)
    ensures |s| >= 2
  {
    if kind == 0 then "-->" else "*/"
  }

  predicate White(c: char) {
    c == ' ' || c == '\t' || c == '\n' || c == '\r'
  }

  // At the end of the lead-in the name begins.
  function Settle(s: Scan): Scan {
    if s.state == LeadIn && s.index >= |LeadInOf(s.kind)| then Scan(Found, s.kind, 0, "") else s
  }

  // One character: the next state, and the name of the tag that it completes.
  function Step(s: Scan, c: char): (Scan, Option<string>) {
    match s.state
    case Outside =>
      if c == LeadInOf(0)[0] then (Scan(LeadIn, 0, 1, ""), None)
      else if c == LeadInOf(1)[0] then (Scan(LeadIn, 1, 1, ""), None)
      else (START, None)
    case LeadIn =>
      if s.index < |LeadInOf(s.kind)| && c == LeadInOf(s.kind)[s.index] then (Settle(s.(index := s.index + 1)), None)
      else (START, None)
    case Found =>
      if s.name == "" && White(c) then (s, None)
      else if c == LeadOutOf(s.kind)[0] || White(c) then
        if s.name == "" then (START, None)
        else (Scan(LeadOut, s.kind, if c == LeadOutOf(s.kind)[0] then 1 else 0, s.name), None)
      else if |s.name| < MAX_TAG_NAME then (s.(name := s.name + [c]), None)
      else (START, None)
    case LeadOut =>
      if s.index == 0 && White(c) then (s, None)
      else if s.index < |LeadOutOf(s.kind)| && c == LeadOutOf(s.kind)[s.index] then
        if s.index + 1 == |LeadOutOf(s.kind)| then (START, Some(s.name)) else (s.(index := s.index + 1), None)
      else (START, None)
    case Sending => (s, None)
  }

  // After k characters.
  function ScanAt(disk: string, k: nat): Scan
    requires k <= |disk|
  {
    if k == 0 then START else Step(ScanAt(disk, k - 1), disk[k - 1]).0
  }

  // The tag that ends at k.
  function TagAt(disk: string, k: nat): Option<string>
    requires k <= |disk|
  {
    if k == 0 then None else Step(ScanAt(disk, k - 1), disk[k - 1]).1
  }

  // The output for k characters: the file itself, with an insert right behind every tag.
  function Out(disk: string, insert: string -> string, k: nat): string
    requires k <= |disk|
  {
    if k == 0 then ""
    else
      Out(disk, insert, k - 1) + [disk[k - 1]] +
      match TagAt(disk, k) { case None => "" case Some(name) => insert(name) }
  }

  // The same without an insert at k.
  function OutBefore(disk: string, insert: string -> string, k: nat): string
    requires 0 < k <= |disk|
  {
    Out(disk, insert, k - 1) + [disk[k - 1]]
  }

  // No tag ends behind a, up to b.
  ghost predicate Plain(disk: string, a: nat, b: nat) {
    b <= |disk| && forall k :: a < k <= b ==> TagAt(disk, k).None?
  }

  lemma {:induction false} OutPlain(disk: string, insert: string -> string, a: nat, b: nat)
    requires a <= b && Plain(disk, a, b)
    ensures Out(disk, insert, b) == Out(disk, insert, a) + disk[a..b]
    decreases b - a
  {
    hide TagAt;
    if a < b {
      OutPlain(disk, insert, a, b - 1);
      assert TagAt(disk, b).None?;
      assert Out(disk, insert, b) == Out(disk, insert, b - 1) + [disk[b - 1]];
      assert disk[a..b] == disk[a..b - 1] + [disk[b - 1]];
    }
  }

  lemma OutAt(disk: string, insert: string -> string, k: nat)
    requires 0 < k <= |disk|
    ensures TagAt(disk, k).None? ==> Out(disk, insert, k) == OutBefore(disk, insert, k)
    ensures TagAt(disk, k).Some? ==> Out(disk, insert, k) == OutBefore(disk, insert, k) + insert(TagAt(disk, k).value)
  {
    hide TagAt;
  }

  lemma {:induction false} OutGrows(disk: string, insert: string -> string, a: nat, b: nat)
    requires a <= b <= |disk|
    ensures Out(disk, insert, a) <= Out(disk, insert, b)
    decreases b - a
  {
    hide TagAt, Out;
    if a < b {
      OutGrows(disk, insert, a, b - 1);
      OutAt(disk, insert, b);
      assert Out(disk, insert, b - 1) <= OutBefore(disk, insert, b) <= Out(disk, insert, b);
    }
  }

  // ----- tags are recognised -----

  ghost predicate TextAt(disk: string, i: nat, t: string) {
    i + |t| <= |disk| && forall x :: 0 <= x < |t| ==> disk[i + x] == t[x]
  }

  ghost predicate AllWhite(s: string) {
    forall i :: 0 <= i < |s| ==> White(s[i])
  }

  // A name: not empty, not too long, neither white space nor the beginning of the lead-out.
  ghost predicate IsName(s: string, kind: nat) {
    0 < |s| <= 8 && forall i :: 0 <= i < |s| ==> !White(s[i]) && s[i] != LeadOutOf(kind)[0]
  }

  lemma ScanNext(disk: string, k: nat)
    requires k < |disk|
    ensures ScanAt(disk, k + 1) == Step(ScanAt(disk, k), disk[k]).0 && TagAt(disk, k + 1) == Step(ScanAt(disk, k), disk[k]).1
  {
    hide Step;
  }

  lemma TextTail(disk: string, at: nat, w: string)
    requires TextAt(disk, at, w) && w != ""
    ensures disk[at] == w[0] && TextAt(disk, at + 1, w[1..])
  {
    assert disk[at + 0] == w[0];
    forall x | 0 <= x < |w| - 1 ensures disk[at + 1 + x] == w[1..][x] {
      assert disk[at + (x + 1)] == w[x + 1];
    }
  }

  lemma {:induction false} ScanLeadIn(disk: string, at: nat, kind: nat, i: nat)
    requires kind < 2 && TextAt(disk, at, LeadInOf(kind)) && 0 < i <= |LeadInOf(kind)| && ScanAt(disk, at) == START
    ensures ScanAt(disk, at + i) == Settle(Scan(LeadIn, kind, i, ""))
    decreases i
  {
    hide ScanAt;
    assert disk[at + (i - 1)] == LeadInOf(kind)[i - 1];
    ScanNext(disk, at + (i - 1));
    if i > 1 {
      ScanLeadIn(disk, at, kind, i - 1);
    }
  }

  lemma {:induction false} ScanWhite(disk: string, at: nat, w: string, i: nat)
    requires TextAt(disk, at, w) && AllWhite(w) && i <= |w|
    requires var s := ScanAt(disk, at); (s.state == Found && s.name == "") || (s.state == LeadOut && s.index == 0)
    ensures ScanAt(disk, at + i) == ScanAt(disk, at)
    decreases i
  {
    hide ScanAt;
    if i > 0 {
      ScanNext(disk, at + (i - 1));
      ScanWhite(disk, at, w, i - 1);
      assert disk[at + (i - 1)] == w[i - 1];
    }
  }

  lemma {:induction false} ScanName(disk: string, at: nat, kind: nat, name: string, i: nat)
    requires TextAt(disk, at, name) && IsName(name, kind) && i <= |name| && ScanAt(disk, at) == Scan(Found, kind, 0, "")
    ensures ScanAt(disk, at + i) == Scan(Found, kind, 0, name[..i])
    decreases i
  {
    hide ScanAt;
    if i > 0 {
      ScanNext(disk, at + (i - 1));
      ScanName(disk, at, kind, name, i - 1);
      assert disk[at + (i - 1)] == name[i - 1];
      assert name[..i] == name[..i - 1] + [name[i - 1]];
    }
  }

  lemma {:induction false} ScanLeadOut(disk: string, at: nat, kind: nat, name: string, i: nat)
    requires TextAt(disk, at, LeadOutOf(kind)) && 0 < i < |LeadOutOf(kind)|
    requires name != "" && ScanAt(disk, at) in [Scan(Found, kind, 0, name), Scan(LeadOut, kind, 0, name)]
    ensures ScanAt(disk, at + i) == Scan(LeadOut, kind, i, name)
    decreases i
  {
    hide ScanAt;
    assert disk[at + (i - 1)] == LeadOutOf(kind)[i - 1];
    ScanNext(disk, at + (i - 1));
    if i > 1 {
      ScanLeadOut(disk, at, kind, name, i - 1);
    }
  }

  lemma ScanGap(disk: string, at: nat, kind: nat, name: string, w: string)
    requires name != "" && TextAt(disk, at, w) && AllWhite(w) && ScanAt(disk, at) == Scan(Found, kind, 0, name)
    ensures ScanAt(disk, at + |w|) in [Scan(Found, kind, 0, name), Scan(LeadOut, kind, 0, name)]
  {
    hide ScanAt;
    if w != "" {
      TextTail(disk, at, w);
      ScanNext(disk, at);
      assert disk[at] != LeadOutOf(kind)[0];
      ScanWhite(disk, at + 1, w[1..], |w| - 1);
    }
  }

  /** A tag outside of other tags is recognised: lead-in, white space, name, white space, lead-out. */
  lemma TagRecognised(disk: string, at: nat, kind: nat, before: string, name: string, after: string)
    requires kind < 2 && at <= |disk| && ScanAt(disk, at) == START && AllWhite(before) && AllWhite(after) && IsName(name, kind)
    requires TextAt(disk, at, LeadInOf(kind)) && TextAt(disk, at + |LeadInOf(kind)|, before)
    requires TextAt(disk, at + |LeadInOf(kind)| + |before|, name) && TextAt(disk, at + |LeadInOf(kind)| + |before| + |name|, after)
    requires TextAt(disk, at + |LeadInOf(kind)| + |before| + |name| + |after|, LeadOutOf(kind))
    ensures TagAt(disk, at + |LeadInOf(kind)| + |before| + |name| + |after| + |LeadOutOf(kind)|) == Some(name)
  {
    hide ScanAt, TagAt;
    var a := at + |LeadInOf(kind)|;
    ScanLeadIn(disk, at, kind, |LeadInOf(kind)|);
    ScanWhite(disk, a, before, |before|);
    var b := a + |before|;
    ScanName(disk, b, kind, name, |name|);
    assert name[..|name|] == name;
    ScanGap(disk, b + |name|, kind, name, after);
    var e, out := b + |name| + |after|, LeadOutOf(kind);
    ScanLeadOut(disk, e, kind, name, |out| - 1);
    assert disk[e + (|out| - 1)] == out[|out| - 1];
    ScanNext(disk, e + (|out| - 1));
  }
}
