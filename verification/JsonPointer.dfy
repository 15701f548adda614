/**
 JSON Pointer (RFC 6901) in stage/cjson/cJSON_Utils.c: `encode_string_as_pointer`,
 `compare_pointers`, `decode_array_index_from_pointer`, `get_item_from_pointer` and
 `cJSONUtils_FindPointerFromObjectTo`. A node of a tree is known by its address: the index to
 take at every level on the way down from the root.
 */
module JsonPointer {
  import opened Basics
  import opened KeyOrder
  import opened JsonValue

  // `size_t` has 32 bits.
  const SIZE_LIMIT := 0x1_0000_0000

  // ----- reference tokens -----

  // Section 3 of RFC 6901
  function EncodeChar(c: char): (r: string)
    ensures 1 <= |r| <= 2
  {
    if c == '/' then "~1" else if c == '~' then "~0" else [c]
  }

  function Encode(s: string): (r: string)
    ensures |r| >= |s|
  {
    if s == [] then [] else EncodeChar(s[0]) + Encode(s[1..])
  }

  // The characters up to the next '/'.
  function Token(p: string): (t: string)
    ensures |t| <= |p| && t == p[..|t|] && '/' !in t && (|t| < |p| ==> p[|t|] == '/')
  {
    if p == [] || p[0] == '/' then [] else [p[0]] + Token(p[1..])
  }

  function AfterToken(p: string): (r: string)
    ensures |r| <= |p|
  {
    p[|Token(p)|..]
  }

  // Section 4 of RFC 6901
  function Unescape(t: string): Option<string> {
    if t == [] then Some([])
    else if t[0] == '~' then
      if |t| >= 2 && (t[1] == '0' || t[1] == '1') then
        match Unescape(t[2..])
        case None => None
        case Some(r) => Some([if t[1] == '0' then '~' else '/'] + r)
      else None
    else
      match Unescape(t[1..])
      case None => None
      case Some(r) => Some([t[0]] + r)
  }

  // The first token of p stands for the key.
  predicate Names(p: string, key: string, cs: bool) {
    var t := Unescape(Token(p));
    t.Some? && Fold(t.value, cs) == Fold(key, cs)
  }

  // `pointer_encoded_length`
  method EncodedLength(s: string) returns (n: nat)
    ensures n == |Encode(s)|
  {
    n := 0;
    var i := 0;
    while i < |s|
      invariant i <= |s| && n + |Encode(s[i..])| == |Encode(s)|
    {
      if s[i] == '~' || s[i] == '/' {
        n := n + 1;
      }
      assert s[i..][1..] == s[i + 1..];
      i, n := i + 1, n + 1;
    }
  }

  lemma {:induction false} EncodeAppend(a: string, b: string)
    ensures Encode(a + b) == Encode(a) + Encode(b)
  {
    if a == [] {
      assert a + b == b;
    } else {
      assert (a + b)[1..] == a[1..] + b;
      EncodeAppend(a[1..], b);
    }
  }

  /** `encode_string_as_pointer`: the escaped text and a zero, nothing else in the buffer. */
  method EncodeStringAsPointer(destination: array<char>, at: nat, source: string)
    requires at + |Encode(source)| < destination.Length
    modifies destination
    ensures destination[at..at + |Encode(source)|] == Encode(source)
    ensures destination[at + |Encode(source)|] == '\0'
    ensures forall x :: 0 <= x < destination.Length && !(at <= x <= at + |Encode(source)|) ==> destination[x] == old(destination[x])
  {
    hide Encode;
    ghost var enc := Encode(source);
    EncodeEnds(source);
    var i, d := 0, at;
    while i < |source|
      invariant i <= |source| && d == at + |Encode(source[..i])| && d <= at + |enc|
      invariant forall x {:trigger destination[x]} :: at <= x < d ==> destination[x] == enc[x - at]
      invariant forall x :: 0 <= x < destination.Length && !(at <= x < d) ==> destination[x] == old(destination[x])
    {
      EncodeNext(source, i);
      if source[i] == '/' {
        destination[d] := '~';
        destination[d + 1] := '1';
        d := d + 1;
      } else if source[i] == '~' {
        destination[d] := '~';
        destination[d + 1] := '0';
        d := d + 1;
      } else {
        destination[d] := source[i];
      }
      i, d := i + 1, d + 1;
    }
    destination[d] := '\0';
  }

  lemma EncodeEnds(s: string)
    ensures Encode(s[..0]) == [] && Encode(s[..|s|]) == Encode(s)
  {
    assert s[..0] == [] && s[..|s|] == s;
  }

  lemma EncodeNext(s: string, i: nat)
    requires i < |s|
    ensures var at := |Encode(s[..i])|; var c := EncodeChar(s[i]);
            |Encode(s[..i + 1])| == at + |c| <= |Encode(s)| && Encode(s)[at] == c[0] && (|c| == 2 ==> Encode(s)[at + 1] == c[1])
  {
    assert s[..i + 1] == s[..i] + [s[i]];
    assert s == s[..i + 1] + s[i + 1..];
    EncodeAppend(s[..i], [s[i]]);
    EncodeAppend(s[..i + 1], s[i + 1..]);
    assert Encode([s[i]]) == EncodeChar(s[i]);
  }

  lemma {:induction false} EncodeOneToken(key: string)
    ensures '/' !in Encode(key)
  {
    if key != [] {
      EncodeOneToken(key[1..]);
    }
  }

  lemma {:induction false} TokenIs(t: string, rest: string)
    requires '/' !in t && (rest == [] || rest[0] == '/')
    ensures Token(t + rest) == t && AfterToken(t + rest) == rest
  {
    if t == [] {
      assert t + rest == rest;
    } else {
      assert (t + rest)[1..] == t[1..] + rest;
      TokenIs(t[1..], rest);
    }
  }

  lemma {:induction false} UnescapeEncode(key: string)
    ensures Unescape(Encode(key)) == Some(key)
  {
    if key != [] {
      UnescapeEncode(key[1..]);
      var c := EncodeChar(key[0]);
      assert Encode(key)[|c|..] == Encode(key[1..]);
      assert key == [key[0]] + key[1..];
    }
  }

  // Section 3 of RFC 6901: '~' becomes "~0", '/' becomes "~1", other characters stay.
  lemma EncodeTable(c: char)
    ensures Encode("~") == "~0" && Encode("/") == "~1" && (c != '~' && c != '/' ==> Encode([c]) == [c])
  {
    assert "~"[1..] == [] && "/"[1..] == [] && [c][1..] == [];
  }

  /** A token is unescaped to a key if and only if it is the escaped form of the key. */
  lemma {:induction false} UnescapeMeaning(t: string, key: string)
    requires '/' !in t
    ensures Unescape(t) == Some(key) <==> Encode(key) == t
    decreases |t|
  {
    if Encode(key) == t {
      UnescapeEncode(key);
    }
    if Unescape(t) == Some(key) && t != [] {
      var n := if t[0] == '~' then 2 else 1;
      UnescapeMeaning(t[n..], key[1..]);
      assert Unescape(t[n..]) == Some(key[1..]);
      assert t == t[..n] + t[n..] && t[0] in t && t[..n] == EncodeChar(key[0]);
    }
  }

  /** An encoded key is one token, and stands for that key. */
  lemma EncodeNames(key: string, rest: string, name: string, cs: bool)
    requires rest == [] || rest[0] == '/'
    ensures AfterToken(Encode(key) + rest) == rest
    ensures Names(Encode(key) + rest, name, cs) <==> Fold(name, cs) == Fold(key, cs)
  {
    EncodeOneToken(key);
    TokenIs(Encode(key), rest);
    UnescapeEncode(key);
  }

  // What one round of `compare_pointers` looks at.
  lemma NamesStep(p: string, key: string, cs: bool)
    ensures p == [] || p[0] == '/' ==> (Names(p, key, cs) <==> key == [])
    ensures p != [] && p[0] != '/' && key == [] ==> !Names(p, key, cs)
    ensures p != [] && key != [] && p[0] == '~' ==>
              (Names(p, key, cs) <==> |p| >= 2 && ((p[1] == '0' && key[0] == '~') || (p[1] == '1' && key[0] == '/')) &&
                                      Names(p[2..], key[1..], cs))
    ensures p != [] && key != [] && p[0] != '~' && p[0] != '/' ==>
              (Names(p, key, cs) <==> Fold([p[0]], cs) == Fold([key[0]], cs) && Names(p[1..], key[1..], cs))
  {
    if p == [] || p[0] == '/' {
    } else {
      assert Token(p)[1..] == Token(p[1..]);
      if p[0] == '~' && |p| >= 2 && (p[1] == '0' || p[1] == '1') {
        assert p[1..][1..] == p[2..];
        assert Token(p)[2..] == Token(p[2..]);
        if Unescape(Token(p[2..])).Some? && key != [] {
          FoldCons(if p[1] == '0' then '~' else '/', Unescape(Token(p[2..])).value, key, cs);
        }
      } else if p[0] != '~' && Unescape(Token(p[1..])).Some? && key != [] {
        FoldCons(p[0], Unescape(Token(p[1..])).value, key, cs);
      }
    }
  }

  lemma FoldCons(c: char, r: string, key: string, cs: bool)
    requires key != []
    ensures Fold([c] + r, cs) == Fold(key, cs) <==> Fold([c], cs) == Fold([key[0]], cs) && Fold(r, cs) == Fold(key[1..], cs)
  {
    var a, b := Fold([c] + r, cs), Fold(key, cs);
    assert a == Fold([c], cs) + Fold(r, cs);
    assert b == Fold([key[0]], cs) + Fold(key[1..], cs);
    assert a[1..] == Fold(r, cs) && b[1..] == Fold(key[1..], cs);
    assert a[0] == Fold([c], cs)[0] && b[0] == Fold([key[0]], cs)[0];
  }

  /** `compare_pointers` */
  method ComparePointers(name: string, pointer: string, cs: bool) returns (r: bool)
    ensures r == Names(pointer, name, cs)
  {
    hide Names;
    var n, p := name, pointer;
    while n != [] && p != [] && p[0] != '/'
      invariant Names(p, n, cs) == Names(pointer, name, cs)
      decreases |p|
    {
      NamesStep(p, n, cs);
      if p[0] == '~' {
        if |p| < 2 || ((p[1] != '0' || n[0] != '~') && (p[1] != '1' || n[0] != '/')) {
          return false;
        }
        assert p[1..][1..] == p[2..];
        p := p[1..];
      } else if Fold([n[0]], cs) != Fold([p[0]], cs) {
        return false;
      }
      n, p := n[1..], p[1..];
    }
    NamesStep(p, n, cs);
    return (p != [] && p[0] != '/') == (n != []);
  }

  // ----- array indices -----

  function Digit(c: char): int {
    c as int - '0' as int
  }

  function DigitsValue(t: string): (n: nat)
    requires forall i :: 0 <= i < |t| ==> t[i] >= '0'
    ensures n < SIZE_LIMIT
  {
    if t == [] then 0 else (10 * DigitsValue(t[..|t| - 1]) + Digit(t[|t| - 1])) % SIZE_LIMIT
  }

  // What a token means as an index. The empty token is 0, and any character above '9' is taken
  // for a digit unless it is the first.
  function IndexOf(t: string): Option<nat> {
    if t == [] then Some(0)
    else if t[0] == '0' && |t| > 1 then None
    else if t[0] > '9' || exists i :: 0 <= i < |t| && t[i] < '0' then None
    else Some(DigitsValue(t))
  }

  /** `decode_array_index_from_pointer` */
  method DecodeIndex(pointer: string) returns (r: Option<nat>)
    ensures r == IndexOf(Token(pointer))
  {
    hide Token;
    ghost var t := Token(pointer);
    if |pointer| > 1 && pointer[0] == '0' && pointer[1] != '/' {
      assert |t| > 1;
      return None;
    }
    var parsed: nat, position := 0, 0;
    while position < |pointer| && pointer[position] >= '0' && pointer[0] <= '9'
      invariant position <= |t| && (position > 0 ==> pointer[0] <= '9')
      invariant forall i :: 0 <= i < position ==> t[i] >= '0'
      invariant parsed == DigitsValue(t[..position])
    {
      assert t[..position + 1][..position] == t[..position];
      parsed := (10 * parsed + Digit(pointer[position])) % SIZE_LIMIT;
      position := position + 1;
    }
    if position < |pointer| && pointer[position] != '/' {
      return None;
    }
    assert t[..position] == t && (|t| > 1 ==> t[1] in t);
    return Some(parsed);
  }

  // `%lu`
  function Decimal(n: nat): (t: string)
    ensures t != [] && forall i :: 0 <= i < |t| ==> '0' <= t[i] <= '9'
    ensures t[0] == '0' ==> n == 0
  {
    if n < 10 then [('0' as int + n) as char] else Decimal(n / 10) + [('0' as int + n % 10) as char]
  }

  lemma DigitsSnoc(t: string, c: char)
    requires c >= '0' && forall i :: 0 <= i < |t| ==> t[i] >= '0'
    ensures DigitsValue(t + [c]) == (10 * DigitsValue(t) + Digit(c)) % SIZE_LIMIT
  {
    assert (t + [c])[..|t|] == t;
  }

  lemma {:induction false} DecimalValue(n: nat)
    requires n < SIZE_LIMIT
    ensures DigitsValue(Decimal(n)) == n
  {
    hide DigitsValue;
    if n < 10 {
      DigitsSnoc([], Decimal(n)[0]);
      assert DigitsValue([]) == 0 by { DigitsEmpty(); }
      assert [] + [Decimal(n)[0]] == Decimal(n);
    } else {
      DecimalValue(n / 10);
      DigitsSnoc(Decimal(n / 10), ('0' as int + n % 10) as char);
    }
  }

  lemma DigitsEmpty()
    ensures DigitsValue([]) == 0
  {
  }

  /** A printed index is one token and is read back. */
  lemma DecimalIndex(n: nat, rest: string)
    requires n < SIZE_LIMIT && (rest == [] || rest[0] == '/')
    ensures AfterToken(Decimal(n) + rest) == rest && IndexOf(Token(Decimal(n) + rest)) == Some(n)
  {
    TokenIs(Decimal(n), rest);
    DecimalValue(n);
    if n == 0 {
      assert Decimal(0) == "0";
    }
  }

  function NatOf(t: string): int {
    if t == [] then 0 else 10 * NatOf(t[..|t| - 1]) + Digit(t[|t| - 1])
  }

  lemma {:induction false} DigitsNat(t: string)
    requires forall i :: 0 <= i < |t| ==> '0' <= t[i] <= '9'
    ensures NatOf(t) >= 0 && DigitsValue(t) == NatOf(t) % SIZE_LIMIT
    decreases |t|
  {
    if t != [] {
      var front := t[..|t| - 1];
      DigitsNat(front);
      ModStep(NatOf(front), Digit(t[|t| - 1]));
    }
  }

  lemma ModStep(a: int, d: int)
    ensures (10 * (a % SIZE_LIMIT) + d) % SIZE_LIMIT == (10 * a + d) % SIZE_LIMIT
  {
  }

  // Digits without a superfluous zero in front are the text of their value.
  lemma {:induction false} DecimalNat(t: string)
    requires t != [] && (forall i :: 0 <= i < |t| ==> '0' <= t[i] <= '9') && (t[0] == '0' ==> |t| == 1)
    ensures NatOf(t) >= 0 && Decimal(NatOf(t)) == t && (t[0] != '0' ==> NatOf(t) > 0)
    decreases |t|
  {
    var front, c := t[..|t| - 1], t[|t| - 1];
    assert t == front + [c];
    if |t| == 1 {
      assert front == [] && NatOf(t) == Digit(c);
    } else {
      DecimalNat(front);
    }
  }

  /** Of tokens made of digits those are indices that have no superfluous zero in front, and they stand for their
      value modulo 2^32. */
  lemma IndexDigits(t: string)
    requires t != [] && forall i :: 0 <= i < |t| ==> '0' <= t[i] <= '9'
    ensures IndexOf(t).Some? <==> exists n: nat :: t == Decimal(n)
    ensures forall n: nat :: t == Decimal(n) ==> IndexOf(t) == Some(n % 0x1_0000_0000)
  {
    if t[0] != '0' || |t| == 1 {
      DecimalNat(t);
      assert t == Decimal(NatOf(t));
      DigitsNat(t);
    }
    forall n: nat | t == Decimal(n) ensures IndexOf(t) == Some(n % SIZE_LIMIT) {
      DecimalLead(n);
      DigitsNat(t);
      NatDecimal(n);
    }
  }

  lemma DecimalLead(n: nat)
    ensures Decimal(n)[0] == '0' ==> |Decimal(n)| == 1
  {
  }

  lemma {:induction false} NatDecimal(n: nat)
    ensures NatOf(Decimal(n)) == n
  {
    var t := Decimal(n);
    if n >= 10 {
      NatDecimal(n / 10);
      assert t[..|t| - 1] == Decimal(n / 10);
    } else {
      assert t[..0] == [];
    }
  }

  /** The index of RFC 6901 section 4 is a proper subset of what is accepted. */
  lemma LooseIndex()
    ensures IndexOf("") == Some(0) && IndexOf("1:") == Some(20)
  {
    var t := "1:";
    assert t[..1] == "1" && t[..1][..0] == [];
    assert DigitsValue("1") == 1;
    assert DigitsValue("1:") == 20;
  }

  // ----- nodes -----

  type Address = seq<nat>

  function Arity(j: Json): nat {
    match j
    case Array(items) => |items|
    case Object(members) => |members|
    case _ => 0
  }

  function Child(j: Json, i: nat): (c: Json)
    requires i < Arity(j)
    ensures c < j
  {
    match j
    case Array(items) => items[i]
    case Object(members) => members[i].value
  }

  predicate IsNode(j: Json, a: Address)
    decreases |a|
  {
    a == [] || (a[0] < Arity(j) && IsNode(Child(j, a[0]), a[1..]))
  }

  function At(j: Json, a: Address): Json
    requires IsNode(j, a)
    decreases |a|
  {
    if a == [] then j else At(Child(j, a[0]), a[1..])
  }

  lemma {:induction false} NodeBelow(j: Json, a: Address, i: nat)
    requires IsNode(j, a) && i < Arity(At(j, a))
    ensures IsNode(j, a + [i]) && At(j, a + [i]) == Child(At(j, a), i)
    decreases |a|
  {
    if a == [] {
      assert a + [i] == [i] && [i][1..] == [];
    } else {
      assert (a + [i])[1..] == a[1..] + [i];
      NodeBelow(Child(j, a[0]), a[1..], i);
    }
  }

  // ----- following a pointer -----

  function FirstNamed(ms: seq<Member>, p: string, cs: bool): (i: nat)
    ensures i <= |ms| && (i < |ms| ==> Names(p, ms[i].key, cs))
    ensures forall x :: 0 <= x < i ==> !Names(p, ms[x].key, cs)
  {
    if ms == [] || Names(p, ms[0].key, cs) then 0
    else
      assert forall x :: 1 <= x < |ms| ==> ms[x] == ms[1..][x - 1];
      1 + FirstNamed(ms[1..], p, cs)
  }

  lemma FirstNamedIs(ms: seq<Member>, p: string, cs: bool, i: nat)
    requires i <= |ms| && (i < |ms| ==> Names(p, ms[i].key, cs))
    requires forall x :: 0 <= x < i ==> !Names(p, ms[x].key, cs)
    ensures FirstNamed(ms, p, cs) == i
  {
  }

  // The child that the first token of p selects.
  function Select(j: Json, p: string, cs: bool): (r: Option<nat>)
    ensures r.Some? ==> r.value < Arity(j)
  {
    match j
    case Array(items) =>
      var i := IndexOf(Token(p));
      if i.Some? && i.value < |items| then i else None
    case Object(members) =>
      var i := FirstNamed(members, p, cs);
      if i < |members| then Some(i) else None
    case _ => None
  }

  function Under(i: nat, r: Option<Address>): Option<Address> {
    match r
    case None => None
    case Some(a) => Some([i] + a)
  }

  // The node that a pointer leads to.
  function GetPointer(j: Json, p: string, cs: bool): (r: Option<Address>)
    ensures r.Some? ==> IsNode(j, r.value)
    decreases |p|
  {
    if p == [] || p[0] != '/' then Some([])
    else
      match Select(j, p[1..], cs)
      case None => None
      case Some(i) =>
        var r := Under(i, GetPointer(Child(j, i), AfterToken(p[1..]), cs));
        assert r.Some? ==> r.value[1..] == GetPointer(Child(j, i), AfterToken(p[1..]), cs).value;
        r
  }

  // Where a search that has come from the root to node a ends.
  function From(a: Address, r: Option<Address>): Option<Address> {
    match r
    case None => None
    case Some(b) => Some(a + b)
  }

  // One token further down.
  lemma FromStep(here: Address, j: Json, t: string, cs: bool)
    ensures Select(j, t, cs).None? ==> GetPointer(j, "/" + t, cs) == None
    ensures Select(j, t, cs).Some? ==>
              var i := Select(j, t, cs).value;
              From(here, GetPointer(j, "/" + t, cs)) == From(here + [i], GetPointer(Child(j, i), AfterToken(t), cs))
  {
    var p := "/" + t;
    assert p[1..] == t;
    if Select(j, t, cs).Some? {
      var i := Select(j, t, cs).value;
      var below := GetPointer(Child(j, i), AfterToken(t), cs);
      assert below.Some? ==> here + ([i] + below.value) == (here + [i]) + below.value;
    }
  }

  lemma PointerStep(j: Json, t: string, i: nat, b: Address, cs: bool)
    requires Select(j, t, cs) == Some(i) && GetPointer(Child(j, i), AfterToken(t), cs) == Some(b)
    ensures GetPointer(j, "/" + t, cs) == Some([i] + b)
  {
    hide Select, AfterToken, IsNode;
    assert ("/" + t)[1..] == t;
  }

  /** `get_item_from_pointer`: the loop goes down one level for each token. */
  method GetItemFromPointer(root: Json, pointer: string, cs: bool) returns (r: Option<Address>)
    ensures r == GetPointer(root, pointer, cs)
  {
    hide GetPointer, Select, AfterToken, IsNode, At;
    var p, here, current := pointer, [], root;
    StartHere(root, pointer, cs);
    while p != [] && p[0] == '/'
      invariant GetPointer(root, pointer, cs) == From(here, GetPointer(current, p, cs))
      decreases |p|
    {
      assert p == "/" + p[1..];
      p := p[1..];
      FromStep(here, current, p, cs);
      var next := SelectChild(current, p, cs);
      if next.None? {
        return None;
      }
      here, current := here + [next.value], Child(current, next.value);
      p := SkipToken(p);
    }
    StopHere(here, current, p, cs);
    return Some(here);
  }

  lemma StartHere(j: Json, p: string, cs: bool)
    ensures From([], GetPointer(j, p, cs)) == GetPointer(j, p, cs)
  {
    var r := GetPointer(j, p, cs);
    assert r.Some? ==> [] + r.value == r.value;
  }

  lemma StopHere(here: Address, j: Json, p: string, cs: bool)
    requires p == [] || p[0] != '/'
    ensures From(here, GetPointer(j, p, cs)) == Some(here)
  {
    assert here + [] == here;
  }

  // On to the next token or the end.
  method SkipToken(t: string) returns (p: string)
    ensures p == AfterToken(t)
  {
    p := t;
    while p != [] && p[0] != '/'
      invariant AfterToken(p) == AfterToken(t)
      decreases |p|
    {
      assert Token(p)[1..] == Token(p[1..]);
      p := p[1..];
    }
  }

  method SelectChild(current: Json, p: string, cs: bool) returns (r: Option<nat>)
    ensures r == Select(current, p, cs)
  {
    hide Names, IndexOf, FirstNamed, Token;
    match current
    case Array(items) =>
      r := DecodeIndex(p);
      if r.Some? && r.value >= |items| {
        r := None;
      }
    case Object(members) =>
      var i := 0;
      while i < |members|
        invariant i <= |members| && forall x :: 0 <= x < i ==> !Names(p, members[x].key, cs)
      {
        var found := ComparePointers(members[i].key, p, cs);
        if found {
          break;
        }
        i := i + 1;
      }
      FirstNamedIs(members, p, cs, i);
      r := if i < |members| then Some(i) else None;
    case _ => r := None;
  }

  // ----- finding a pointer -----

  // The pointer to the node at a.
  function PathTo(j: Json, a: Address): string
    requires IsNode(j, a)
    decreases |a|
  {
    if a == [] then ""
    else "/" + (if j.Array? then Decimal(a[0]) else Encode(j.members[a[0]].key)) + PathTo(Child(j, a[0]), a[1..])
  }

  /** `cJSONUtils_FindPointerFromObjectTo`: a search through the whole tree for a node, which it knows
      by its identity: `here` is the address of `root`, `target` the one looked for. */
  method FindPointer(root: Json, here: Address, target: Address) returns (r: Option<string>)
    ensures here <= target && IsNode(root, target[|here|..]) ==> r == Some(PathTo(root, target[|here|..]))
    ensures !(here <= target && IsNode(root, target[|here|..])) ==> r == None
    decreases root
  {
    if here == target {
      return Some("");
    }
    var i := 0;
    while i < Arity(root)
      invariant i <= Arity(root)
      invariant here <= target && IsNode(root, target[|here|..]) ==> target[|here|] >= i
    {
      ghost var rest := if here <= target then target[|here|..] else [];
      assert here <= target ==> (here + [i] <= target <==> rest[0] == i) && rest[1..] == target[|here| + 1..];
      var found := FindPointer(Child(root, i), here + [i], target);
      if found.Some? {
        if root.Array? {
          return Some("/" + Decimal(i) + found.value);
        }
        return Some("/" + Encode(root.members[i].key) + found.value);
      }
      i := i + 1;
    }
    return None;
  }

  /** A found pointer leads back to the node, for every node of a tree and every text of the keys. */
  lemma {:induction false} FindThenGet(j: Json, a: Address, cs: bool)
    requires IsNode(j, a) && Unique(j, cs) && forall i :: 0 <= i < |a| ==> a[i] < SIZE_LIMIT
    ensures GetPointer(j, PathTo(j, a), cs) == Some(a)
    decreases |a|
  {
    hide Select, AfterToken, Unique, GetPointer, Encode, Decimal;
    if a == [] {
      StopHere([], j, "", cs);
      StartHere(j, "", cs);
    } else {
      var rest := PathTo(Child(j, a[0]), a[1..]);
      var token := if j.Array? then Decimal(a[0]) else Encode(j.members[a[0]].key);
      assert PathTo(j, a) == "/" + (token + rest);
      ChildUnique(j, a[0], cs);
      FindThenGet(Child(j, a[0]), a[1..], cs);
      SelectToken(j, a[0], rest, cs);
      PointerStep(j, token + rest, a[0], a[1..], cs);
      assert [a[0]] + a[1..] == a;
    }
  }

  lemma ChildUnique(j: Json, i: nat, cs: bool)
    requires Unique(j, cs) && i < Arity(j)
    ensures Unique(Child(j, i), cs)
  {
  }

  lemma SelectToken(j: Json, i: nat, rest: string, cs: bool)
    requires i < Arity(j) && Unique(j, cs) && (rest == [] || rest[0] == '/') && i < SIZE_LIMIT
    ensures var token := if j.Array? then Decimal(i) else Encode(j.members[i].key);
            Select(j, token + rest, cs) == Some(i) && AfterToken(token + rest) == rest
  {
    if j.Array? {
      DecimalIndex(i, rest);
    } else {
      forall x | 0 <= x < |j.members|
        ensures Names(Encode(j.members[i].key) + rest, j.members[x].key, cs) <==> x == i
      {
        EncodeNames(j.members[i].key, rest, j.members[x].key, cs);
        var lo, hi := if x < i then x else i, if x < i then i else x;
        assert lo < hi ==> Fold(j.members[lo].key, cs) != Fold(j.members[hi].key, cs);
      }
      EncodeNames(j.members[i].key, rest, j.members[i].key, cs);
      FirstNamedIs(j.members, Encode(j.members[i].key) + rest, cs, i);
    }
  }
}
