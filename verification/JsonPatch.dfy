/**
 Applying a JSON Patch (RFC 6902) as stage/cjson/cJSON_Utils.c means to: `decode_pointer_inplace`,
 `detach_path`, `apply_patch` and `cJSONUtils_ApplyPatches` on trees as values, where nothing is lost by
 sorting. Module `JsonDocument` has what is done to the document.
 */
module JsonPatch {
  import opened Basics
  import opened JsonValue
  import opened JsonCompare
  import opened JsonPointer

  // ----- `decode_pointer_inplace` -----

  // The text left in the buffer b when the reader is at s and the writer at d. Ordinary characters
  // are not moved from the reader to the writer.
  function DecodeFrom(b: string, d: nat, s: nat): string
    requires d <= s <= |b|
    decreases |b| - s
  {
    if s == |b| then b[..d]
    else if b[s] != '~' then DecodeFrom(b, d + 1, s + 1)
    else if s + 1 < |b| && b[s + 1] == '0' then DecodeFrom(b[d := '~'], d + 1, s + 2)
    else if s + 1 < |b| && b[s + 1] == '1' then DecodeFrom(b[d + 1 := '/'], d + 1, s + 2)
    else b
  }

  function DecodeInPlace(t: string): string {
    DecodeFrom(t, 0, 0)
  }

  // The characters before the first zero.
  function CString(b: seq<char>): string {
    if b == [] || b[0] == '\0' then [] else [b[0]] + CString(b[1..])
  }

  lemma {:induction false} CStringIs(b: seq<char>, n: nat)
    requires n < |b| && b[n] == '\0' && forall i :: 0 <= i < n ==> b[i] != '\0'
    ensures CString(b) == b[..n]
  {
    if n > 0 {
      CStringIs(b[1..], n - 1);
      assert b[..n] == [b[0]] + b[1..][..n - 1];
    }
  }

  /** `decode_pointer_inplace` */
  method DecodePointerInplace(a: array<char>, ghost n: nat)
    requires n < a.Length && a[n] == '\0' && forall i :: 0 <= i < n ==> a[i] != '\0'
    modifies a
    ensures CString(a[..]) == DecodeInPlace(old(a[..n]))
  {
    var s, d := 0, 0;
    while a[s] != '\0'
      invariant d <= s <= n && a[n] == '\0' && forall i :: 0 <= i < n ==> a[i] != '\0'
      invariant DecodeFrom(a[..n], d, s) == DecodeInPlace(old(a[..n]))
      decreases n - s
    {
      if a[s] == '~' {
        ghost var b := a[..n];
        if a[s + 1] == '0' {
          a[d] := '~';
          assert a[..n] == b[d := '~'];
        } else if a[s + 1] == '1' {
          a[d + 1] := '/';
          assert a[..n] == b[d + 1 := '/'];
        } else {
          CStringIs(a[..], n);
          return;
        }
        s := s + 1;
      }
      s, d := s + 1, d + 1;
    }
    ghost var b := a[..n];
    a[d] := '\0';
    CStringIs(a[..], d);
    assert a[..d] == b[..d];
  }

  // ----- keys that come through -----

  // From position d on, each character is in its place already when the reader gets to it.
  predicate SurvivesFrom(key: string, d: nat) {
    forall x :: d <= x < |key| ==> key[x] != '/' && (key[x] == '~' || Encode(key)[x] == key[x])
  }

  predicate Survives(key: string) {
    SurvivesFrom(key, 0)
  }

  // The buffer is untouched from the reader on.
  ghost predicate Reading(key: string, b: string, d: nat, s: nat) {
    && d <= |key| && s == |Encode(key[..d])| && d <= s <= |b| == |Encode(key)|
    && forall x :: s <= x < |b| ==> b[x] == Encode(key)[x]
  }

  lemma ReadingNext(key: string, b: string, d: nat, s: nat)
    requires Reading(key, b, d, s) && d < |key|
    ensures var c := EncodeChar(key[d]);
            && s + |c| <= |b| && b[s] == c[0] && (|c| == 2 ==> b[s + 1] == c[1]) && |Encode(key[..d + 1])| == s + |c|
  {
    EncodeNext(key, d);
  }

  lemma {:induction false} DecodeKeeps(key: string, b: string, d: nat, s: nat)
    requires Reading(key, b, d, s)
    ensures var r := DecodeFrom(b, d, s); |r| == |key| && r[..d] == b[..d]
    decreases |key| - d
  {
    hide Encode;
    if d == |key| {
      EncodeEnds(key);
    } else {
      ReadingNext(key, b, d, s);
      if key[d] == '~' {
        DecodeKeeps(key, b[d := '~'], d + 1, s + 2);
        assert DecodeFrom(b, d, s)[..d + 1][..d] == b[d := '~'][..d + 1][..d];
      } else if key[d] == '/' {
        DecodeKeeps(key, b[d + 1 := '/'], d + 1, s + 2);
        assert DecodeFrom(b, d, s)[..d + 1][..d] == b[d + 1 := '/'][..d + 1][..d];
      } else {
        DecodeKeeps(key, b, d + 1, s + 1);
        assert DecodeFrom(b, d, s)[..d + 1][..d] == b[..d + 1][..d];
      }
    }
  }

  lemma {:induction false} DecodeTail(key: string, b: string, d: nat, s: nat)
    requires Reading(key, b, d, s) && '/' !in Encode(key)
    requires forall x :: d <= x < |b| ==> b[x] == Encode(key)[x]
    ensures |DecodeFrom(b, d, s)| == |key|
    ensures SurvivesFrom(key, d) <==> forall x :: d <= x < |key| ==> DecodeFrom(b, d, s)[x] == key[x]
    decreases |key| - d
  {
    hide Encode;
    DecodeKeeps(key, b, d, s);
    if d < |key| {
      var r := DecodeFrom(b, d, s);
      ReadingNext(key, b, d, s);
      if key[d] == '~' {
        DecodeKeeps(key, b[d := '~'], d + 1, s + 2);
        assert r[d] == r[..d + 1][d];
        DecodeTail(key, b[d := '~'], d + 1, s + 2);
      } else if key[d] == '/' {
        DecodeKeeps(key, b[d + 1 := '/'], d + 1, s + 2);
        assert r[d] == r[..d + 1][d] == b[d];
        assert b[d] in Encode(key);
      } else {
        DecodeKeeps(key, b, d + 1, s + 1);
        assert r[d] == r[..d + 1][d];
        DecodeTail(key, b, d + 1, s + 1);
      }
    }
  }

  /** A key comes out of escaping and `decode_pointer_inplace` unchanged iff it survives. */
  lemma DecodeKey(key: string)
    ensures DecodeInPlace(Encode(key)) == key <==> Survives(key)
  {
    EncodeEnds(key);
    EncodeOneToken(key);
    DecodeTail(key, Encode(key), 0, 0);
  }

  // What is decoded at a place: a '~' stays one, a '/' is written one place too far, and for any other character the
  // place keeps what the escaped key has there.
  function DecodedAt(key: string, k: nat): char
    requires k < |key|
  {
    if key[k] == '~' then '~' else if k > 0 && key[k - 1] == '/' then '/' else Encode(key)[k]
  }

  // The buffer when the writer is at d: decoded in front of d, untouched behind it.
  ghost predicate Decoding(key: string, b: string, d: nat, s: nat) {
    && Reading(key, b, d, s) && (forall x :: 0 <= x < d ==> b[x] == DecodedAt(key, x))
    && (forall x :: d < x < |b| ==> b[x] == Encode(key)[x])
    && (d < |b| ==> b[d] == if d > 0 && key[d - 1] == '/' then '/' else Encode(key)[d])
  }

  lemma {:induction false} DecodeRuns(key: string, b: string, d: nat, s: nat)
    requires Decoding(key, b, d, s)
    ensures var r := DecodeFrom(b, d, s); |r| == |key| && forall x :: 0 <= x < |key| ==> r[x] == DecodedAt(key, x)
    decreases |key| - d
  {
    hide Encode;
    if d == |key| {
      EncodeEnds(key);
    } else {
      ReadingNext(key, b, d, s);
      if key[d] == '~' {
        DecodeRuns(key, b[d := '~'], d + 1, s + 2);
      } else if key[d] == '/' {
        DecodeRuns(key, b[d + 1 := '/'], d + 1, s + 2);
      } else {
        DecodeRuns(key, b, d + 1, s + 1);
      }
    }
  }

  /** What becomes of every key that is escaped and decoded in place. */
  lemma DecodeMeaning(key: string)
    ensures var r := DecodeInPlace(Encode(key)); |r| == |key| && forall x :: 0 <= x < |key| ==> r[x] == DecodedAt(key, x)
  {
    EncodeEnds(key);
    DecodeRuns(key, Encode(key), 0, 0);
  }

  /** A token is left as it is from an escape on that is none. */
  lemma {:induction false} DecodeInvalid(a: string, rest: string, d: nat)
    requires d <= |a| && '~' !in a && (rest == [] || (rest[0] != '0' && rest[0] != '1'))
    ensures DecodeFrom(a + "~" + rest, d, d) == a + "~" + rest
    decreases |a| - d
  {
    if d < |a| {
      assert (a + "~" + rest)[d] == a[d] && a[d] in a;
      DecodeInvalid(a, rest, d + 1);
    } else {
      assert (a + "~" + rest)[d] == '~';
      assert rest != [] ==> (a + "~" + rest)[d + 1] == rest[0];
    }
  }

  // Keys without '/' and '~' survive; a key with '/' never does.
  lemma PlainSurvives(key: string)
    ensures '/' !in key && '~' !in key ==> Survives(key)
    ensures '/' in key ==> !Survives(key)
  {
    if '/' !in key && '~' !in key {
      EncodePlain(key);
    }
  }

  lemma {:induction false} EncodePlain(key: string)
    requires '/' !in key && '~' !in key
    ensures Encode(key) == key
  {
    if key != [] {
      EncodePlain(key[1..]);
    }
  }

  // ----- editing a tree -----

  // The tree with the node at a replaced. A member keeps its key.
  function Put(j: Json, a: Address, x: Json): Json
    requires IsNode(j, a)
    decreases |a|
  {
    if a == [] then x
    else
      var c := Put(Child(j, a[0]), a[1..], x);
      match j
      case Array(items) => Array(items[a[0] := c])
      case Object(members) => Object(members[a[0] := Member(members[a[0]].key, c)])
  }

  function Without<T>(s: seq<T>, i: nat): seq<T>
    requires i < |s|
  {
    s[..i] + s[i + 1..]
  }

  // `strrchr(path, '/')`
  function LastSlash(path: string): (r: Option<nat>)
    ensures r.Some? ==> r.value < |path|
  {
    if path == [] then None
    else if path[|path| - 1] == '/' then Some(|path| - 1)
    else LastSlash(path[..|path| - 1])
  }

  // The node taken out of a container, and what stays. The case of keys is ignored.
  function TakeOut(parent: Json, token: string): Option<(Json, Json)> {
    match parent
    case Array(items) =>
      var i := IndexOf(Token(token));
      if i.Some? && i.value < |items| then Some((Array(Without(items, i.value)), items[i.value])) else None
    case Object(members) =>
      var i := Lookup(members, token, false);
      if i < |members| then Some((Object(Without(members, i)), members[i].value)) else None
    case _ => None
  }

  // `detach_path`: what stays of the tree, and the node.
  function Detach(j: Json, path: string, cs: bool): Option<(Json, Json)> {
    match LastSlash(path)
    case None => None
    case Some(k) =>
      match GetPointer(j, path[..k], cs)
      case None => None
      case Some(a) =>
        match TakeOut(At(j, a), DecodeInPlace(path[k + 1..]))
        case None => None
        case Some(r) => Some((Put(j, a, r.0), r.1))
  }

  // A value put into a container, or an error code.
  function PutIn(parent: Json, token: string, value: Json, cs: bool): (Json, nat) {
    match parent
    case Array(items) =>
      if token == "-" then (Array(items + [value]), 0)
      else
        var i := IndexOf(Token(token));
        if i.None? then (parent, 11)
        else if i.value > |items| then (parent, 10)
        else (Array(items[..i.value] + [value] + items[i.value..]), 0)
    case Object(members) =>
      var i := Lookup(members, token, cs);
      var rest := if i < |members| then Without(members, i) else members;
      (Object(rest + [Member(token, value)]), 0)
    case _ => (parent, 9)
  }

  // The last part of `apply_patch`.
  function Add(j: Json, path: string, value: Json, cs: bool): (Json, nat) {
    match LastSlash(path)
    case None => (j, 9)
    case Some(k) =>
      match GetPointer(j, path[..k], cs)
      case None => (j, 9)
      case Some(a) =>
        var r := PutIn(At(j, a), DecodeInPlace(path[k + 1..]), value, cs);
        if r.1 == 0 then (Put(j, a, r.0), 0) else (j, r.1)
  }

  // ----- `apply_patch` -----

  function Field(patch: Json, name: string, cs: bool): Option<Json> {
    if patch.Object? then
      var i := Lookup(patch.members, name, cs);
      if i < |patch.members| then Some(patch.members[i].value) else None
    else None
  }

  // `valuestring`
  function Text(j: Json): Option<string> {
    match j
    case String(s) => Some(s)
    case Raw(s) => Some(s)
    case _ => None
  }

  function Apply(j: Json, patch: Json, cs: bool): (Json, nat) {
    var path, op, value := Field(patch, "path", cs), Field(patch, "op", cs), Field(patch, "value", cs);
    if path.None? || !path.value.String? then (j, 2)
    else if op.None? || !op.value.String? then (j, 3)
    else ApplyOp(j, op.value.s, path.value.s, Field(patch, "from", cs), value, cs)
  }

  function ApplyOp(j: Json, op: string, path: string, from: Option<Json>, value: Option<Json>, cs: bool): (Json, nat) {
    if op == "test" then
      var at := GetPointer(j, path, cs);
      (j, if at.Some? && value.Some? && Same(At(j, at.value), value.value, cs) then 0 else 1)
    else if op == "remove" then
      if path == "" then (Invalid, 0)
      else
        match Detach(j, path, cs)
        case None => (j, 13)
        case Some(r) => (r.0, 0)
    else if op == "replace" then
      if path == "" then if value.None? then (j, 7) else (value.value, 0)
      else
        match Detach(j, path, cs)
        case None => (j, 13)
        case Some(r) => if value.None? then (r.0, 7) else Add(r.0, path, value.value, cs)
    else if op == "add" then
      if value.None? then (j, 7)
      else if path == "" then (value.value, 0)
      else Add(j, path, value.value, cs)
    else if op == "move" then
      if from.None? then (j, 4)
      else if Text(from.value).None? then (j, 5)
      else
        match Detach(j, Text(from.value).value, cs)
        case None => (j, 5)
        case Some(r) => Add(r.0, path, r.1, cs)
    else if op == "copy" then
      if from.None? then (j, 4)
      else if Text(from.value).None? then (j, 5)
      else
        match GetPointer(j, Text(from.value).value, cs)
        case None => (j, 5)
        case Some(a) => Add(j, path, At(j, a), cs)
    else (j, 3)
  }

  function ApplyAll(j: Json, patches: seq<Json>, cs: bool): (Json, nat)
    decreases |patches|
  {
    if patches == [] then (j, 0)
    else
      var r := Apply(j, patches[0], cs);
      if r.1 != 0 then r else ApplyAll(r.0, patches[1..], cs)
  }

  lemma {:induction false} ApplyAppend(j: Json, p: seq<Json>, q: seq<Json>, cs: bool)
    requires ApplyAll(j, p, cs).1 == 0
    ensures ApplyAll(j, p + q, cs) == ApplyAll(ApplyAll(j, p, cs).0, q, cs)
    decreases |p|
  {
    hide Apply;
    if p == [] {
      assert p + q == q;
    } else {
      assert (p + q)[1..] == p[1..] + q;
      ApplyAppend(Apply(j, p[0], cs).0, p[1..], q, cs);
    }
  }
}
