/**
 Sending a file with server-side includes (network/httpd/httpd.c, `http_write`,
 `http_send_data_ssi`, `http_check_eof`, `http_send`): blocks are read, scanned for tags and written
 piecemeal to a TCP connection that takes what it likes. Tags stay in the output, inserts have one part.
 */
module SsiSend {
  import opened Basics
  import opened SsiScan
  import opened SsiTags

  // What TCP may say to a write.
  datatype Answer = Taken | NoMemory | Refused

  class Connection {
    const disk: string                // the file
    const insert: string -> string    // `get_tag_insert`
    var pos: nat                      // how much of the file has been read
    var buf: string                   // the block read last
    var file: nat                     // first byte of the block that has not been sent
    var left: nat                     // bytes of the block that have not been sent
    var parsed: nat                   // first byte of the block that has not been scanned
    var parseLeft: nat                // bytes of the block that have not been scanned
    var tagEnd: nat                   // end of the last tag in the block
    var tagState: TagState
    var tagType: nat
    var tagIndex: nat
    var tagName: string
    var tagInsert: string
    var sent: string                  // what TCP has taken
    var closed: bool
    var failed: bool                  // a block could not be read
    ghost var ends: set<nat>          // where blocks have ended

    // How far the file has been sent and scanned.
    ghost function Sent(): int
      reads this`pos, this`buf, this`file
    {
      pos - |buf| + file
    }

    ghost function Scanned(): int
      reads this`pos, this`buf, this`parsed
    {
      pos - |buf| + parsed
    }

    ghost function Abstract(): Scan
      reads this`tagState, this`tagType, this`tagIndex, this`tagName
    {
      match tagState
      case LeadIn => Settle(Scan(LeadIn, tagType, tagIndex, ""))
      case Found => Scan(Found, tagType, 0, if tagIndex <= |tagName| then tagName[..tagIndex] else "")
      case LeadOut => Scan(LeadOut, tagType, tagIndex, tagName)
      case _ => START
    }

    // What is left of an insert.
    ghost function Pending(): string
      reads this
    {
      if tagState == Sending && tagIndex <= |tagInsert| then tagInsert[tagIndex..] else ""
    }

    ghost predicate Block()
      reads this
    {
      && |buf| <= pos <= |disk| && buf == disk[pos - |buf|..pos] && (pos > 0 ==> pos in ends)
      && file <= parsed <= |buf| && left == |buf| - file && parseLeft == |buf| - parsed
    }

    ghost predicate Scanning()
      reads this`tagState, this`tagType, this`tagIndex, this`tagName
    {
      && tagType < 2 && (tagState == Found ==> tagIndex <= |tagName| && tagIndex <= MAX_TAG_NAME)
      && (tagState == LeadIn ==> 0 < tagIndex <= |LeadInOf(tagType)|) && (tagState == LeadOut ==> tagIndex < |LeadOutOf(tagType)|)
    }

    /** What has been sent is the output for as much of the file as has been sent; while an insert is on
        its way, the part of it that has been sent comes on top. */
    ghost predicate Valid()
      reads this
    {
      && Block() && Scanning() && ScanAt(disk, Scanned()) == Abstract()
      && SentOk(disk, insert, tagState == Sending, Sent(), Scanned(), sent, tagInsert, tagIndex)
      && (tagState == Sending ==> tagEnd == parsed && TagAt(disk, Scanned()) == Some(tagName) && tagInsert == insert(tagName))
    }

    // `http_init_file`: the whole file is in memory, or nothing of it has been read yet.
    constructor (disk: string, insert: string -> string, inMemory: bool)
      ensures Valid() && this.disk == disk && this.insert == insert && !closed && !failed && ends <= {|disk|}
    {
      this.disk, this.insert := disk, insert;
      pos := if inMemory then |disk| else 0;
      buf := if inMemory then disk else "";
      left := if inMemory then |disk| else 0;
      parseLeft := if inMemory then |disk| else 0;
      file, parsed, tagEnd, tagState, tagType, tagIndex := 0, 0, 0, Outside, 0, 0;
      tagName, tagInsert, sent, closed, failed := "", "", "", false, false;
      ends := if inMemory then {|disk|} else {};
    }

    /** `http_write`: less and less is tried until TCP takes it. It may take any amount, or refuse. */
    method HttpWrite(data: string) returns (err: bool, n: nat)
      modifies this`sent
      ensures n <= |data| && (err ==> n == 0) && (data == "" ==> !err)
      ensures sent == old(sent) + data[..n] && (n == 0 ==> sent == old(sent))
    {
      if data == "" {
        return false, 0;
      }
      var space: nat, full: bool, answer: Answer := *, *, *;
      var len := if space < |data| then space else |data|;
      while answer == NoMemory && len > 1
        invariant 0 <= len <= |data|
        decreases len
      {
        len := if full then 1 else len / 2;
        if len > 1 {
          full, answer := *, *;
        }
      }
      if answer != Taken {
        return true, 0;
      }
      sent := sent + data[..len];
      return false, len;
    }

    // A part of the block is offered to TCP, up to `parsed`.
    method SendBlock() returns (err: bool, len: nat)
      requires Valid() && file < parsed
      modifies this`sent, this`file, this`left
      ensures Valid() && len <= old(left) && file == old(file) + len && (err ==> len == 0)
    {
      hide SentOk, TagAt, ScanAt, Plain, Step;
      var size := if parsed - file < 0xffff then parsed - file else 0xffff;
      err, len := HttpWrite(buf[file..file + size]);
      if !err {
        BlockSlice(disk, pos, buf, file, size, len);
        ghost var from := Sent();
        SentMore(disk, insert, tagState == Sending, from, Scanned(), old(sent), tagInsert, tagIndex, len);
        file := file + len;
        left := left - len;
        assert Sent() == from + len;
      }
    }

    // Move on to the next character in the buffer.
    method Next()
      requires parseLeft > 0
      modifies this`parsed, this`parseLeft
      ensures parsed == old(parsed) + 1 && parseLeft == old(parseLeft) - 1
    {
      parseLeft := parseLeft - 1;
      parsed := parsed + 1;
    }

    /** One round of the scanner. At the end of a tag its insert is asked for. */
    method ScanChar()
      requires Valid() && tagState != Sending && parseLeft > 0
      modifies this`parsed, this`parseLeft, this`tagState, this`tagType, this`tagIndex, this`tagName, this`tagInsert, this`tagEnd
      ensures Valid() && (tagState == Sending ==> file < parsed)
      ensures parseLeft < old(parseLeft) || (parseLeft == old(parseLeft) && old(tagState) == LeadIn && tagState == Found)
    {
      hide SentOk, TagAt, ScanAt, Plain, Step, Abstract;
      var c := buf[parsed];
      ghost var from, k, had := Sent(), Scanned(), tagInsert;
      if tagState == LeadIn && tagIndex == |LeadInOf(tagType)| {
        ScanSettle();
        SentState(disk, insert, from, k, sent, had, old(tagIndex), tagInsert, tagIndex);
        return;
      }
      ScanNext(disk, k);
      ScanState(c);
      assert Scanned() == k + 1 && Sent() == from && disk[k] == c;
      ScannedMore(disk, insert, from, k, sent, had, old(tagIndex), tagInsert, tagIndex);
    }

    // At the end of the lead-in no character is used.
    method ScanSettle()
      requires Scanning() && tagState == LeadIn && tagIndex == |LeadInOf(tagType)|
      modifies this`tagState, this`tagIndex
      ensures Scanning() && tagState == Found && Abstract() == old(Abstract())
    {
      tagIndex := 0;
      tagState := Found;
    }

    method ScanState(c: char)
      requires Scanning() && tagState != Sending && (tagState == LeadIn ==> tagIndex < |LeadInOf(tagType)|) && parseLeft > 0
      modifies this`parsed, this`parseLeft, this`tagState, this`tagType, this`tagIndex, this`tagName, this`tagInsert, this`tagEnd
      ensures Scanning() && Abstract() == Step(old(Abstract()), c).0
      ensures tagState != Sending ==> Step(old(Abstract()), c).1 == None
      ensures tagState == Sending ==> Step(old(Abstract()), c).1 == Some(tagName) && tagInsert == insert(tagName) && tagIndex == 0 && tagEnd == parsed
      ensures parsed == old(parsed) + 1 && parseLeft == old(parseLeft) - 1
    {
      hide Step, Abstract;
      match tagState {
        case Outside => ScanOutside(c);
        case LeadIn => ScanLeadIn(c);
        case Found => ScanFound(c);
        case LeadOut => ScanLeadOut(c);
      }
    }

    // The four states, each with the character c at hand.

    method ScanOutside(c: char)
      requires Scanning() && tagState == Outside && parseLeft > 0
      modifies this`parsed, this`parseLeft, this`tagState, this`tagType, this`tagIndex
      ensures Scanning() && tagState != Sending && Abstract() == Step(old(Abstract()), c).0 && Step(old(Abstract()), c).1 == None
      ensures parsed == old(parsed) + 1 && parseLeft == old(parseLeft) - 1
    {
      var kind := 0;
      while kind < 2
        invariant kind <= 2 && tagState == Outside && tagType < 2 && forall x :: 0 <= x < kind ==> c != LeadInOf(x)[0]
      {
        if c == LeadInOf(kind)[0] {
          tagType := kind;
          tagState := LeadIn;
          tagIndex := 1;
          break;
        }
        kind := kind + 1;
      }
      Next();
    }

    method ScanLeadIn(c: char)
      requires Scanning() && tagState == LeadIn && tagIndex < |LeadInOf(tagType)| && parseLeft > 0
      modifies this`parsed, this`parseLeft, this`tagState, this`tagIndex
      ensures Scanning() && tagState != Sending && Abstract() == Step(old(Abstract()), c).0 && Step(old(Abstract()), c).1 == None
      ensures parsed == old(parsed) + 1 && parseLeft == old(parseLeft) - 1
    {
      if c == LeadInOf(tagType)[tagIndex] {
        tagIndex := tagIndex + 1;
      } else {
        tagState := Outside;
      }
      Next();
    }

    method ScanFound(c: char)
      requires Scanning() && tagState == Found && parseLeft > 0
      modifies this`parsed, this`parseLeft, this`tagState, this`tagIndex, this`tagName
      ensures Scanning() && tagState != Sending && Abstract() == Step(old(Abstract()), c).0 && Step(old(Abstract()), c).1 == None
      ensures parsed == old(parsed) + 1 && parseLeft == old(parseLeft) - 1
    {
      if tagIndex == 0 && White(c) {
        Next();
        return;
      }
      if c == LeadOutOf(tagType)[0] || White(c) {
        if tagIndex == 0 {
          tagState := Outside;
        } else {
          tagState := LeadOut;
          tagName := tagName[..tagIndex];
          tagIndex := if c == LeadOutOf(tagType)[0] then 1 else 0;
        }
      } else if tagIndex < MAX_TAG_NAME {
        tagName := tagName[..tagIndex] + [c];
        tagIndex := tagIndex + 1;
        assert tagName[..tagIndex] == tagName;
      } else {
        tagState := Outside;
      }
      Next();
    }

    method ScanLeadOut(c: char)
      requires Scanning() && tagState == LeadOut && parseLeft > 0
      modifies this`parsed, this`parseLeft, this`tagState, this`tagIndex, this`tagInsert, this`tagEnd
      ensures Scanning() && Abstract() == Step(old(Abstract()), c).0
      ensures tagState != Sending ==> Step(old(Abstract()), c).1 == None && tagInsert == old(tagInsert)
      ensures tagState == Sending ==> Step(old(Abstract()), c).1 == Some(tagName) && tagInsert == insert(tagName) && tagIndex == 0 && tagEnd == parsed
      ensures parsed == old(parsed) + 1 && parseLeft == old(parseLeft) - 1
    {
      if tagIndex == 0 && White(c) {
        Next();
        return;
      }
      if c == LeadOutOf(tagType)[tagIndex] {
        Next();
        tagIndex := tagIndex + 1;
        if tagIndex == |LeadOutOf(tagType)| {
          tagInsert := insert(tagName);
          tagIndex := 0;
          tagState := Sending;
          tagEnd := parsed;
        }
      } else {
        Next();
        tagState := Outside;
      }
    }

    // A part of the insert is offered to TCP.
    method SendInsert() returns (err: bool, len: nat)
      requires Valid() && tagState == Sending && file == parsed && tagIndex < |tagInsert|
      modifies this`sent, this`tagIndex
      ensures Valid() && len <= |tagInsert| - old(tagIndex) && tagIndex == old(tagIndex) + len && (err ==> len == 0)
    {
      hide TagAt, ScanAt, Plain, Out, OutBefore, Step;
      err, len := HttpWrite(tagInsert[tagIndex..]);
      if !err {
        assert tagInsert[..tagIndex] + tagInsert[tagIndex..][..len] == tagInsert[..tagIndex + len];
        tagIndex := tagIndex + len;
      }
    }

    // The insert has been sent: back to looking for tags.
    method InsertDone()
      requires Valid() && tagState == Sending && file == parsed && tagIndex >= |tagInsert|
      modifies this`tagState, this`tagIndex
      ensures Valid() && tagState == Outside
    {
      hide ScanAt, Step;
      OutAt(disk, insert, Scanned());
      assert tagInsert[..|tagInsert|] == tagInsert;
      tagIndex := 0;
      tagState := Outside;
    }

    /** `http_send_data_ssi` */
    method SendDataSsi()
      requires Valid()
      modifies this`sent, this`file, this`left, this`parsed, this`parseLeft, this`tagState, this`tagType, this`tagIndex, this`tagName, this`tagInsert, this`tagEnd
      ensures Valid()
    {
      hide SentOk, TagAt, ScanAt, Plain, Step, Abstract, Scanning;
      var err, len: nat := false, *;
      if file < parsed {
        err, len := SendBlock();
        var full: bool := *;
        if full {
          return;
        }
      }
      while (tagState == Sending || parseLeft > 0) && !err
        invariant Valid()
        decreases parseLeft, if tagState == Sending then 1 else 0, if tagState == LeadIn then 1 else 0, left,
                  if tagState == Sending then |tagInsert| - tagIndex else 0, if len == 0 || err then 0 else 1
      {
        if len == 0 {
          return;
        }
        if tagState != Sending {
          ScanChar();
          if tagState == Sending {
            err, len := SendBlock();
          }
        } else if file < tagEnd {
          err, len := SendBlock();
        } else if tagIndex < |tagInsert| {
          err, len := SendInsert();
        } else {
          InsertDone();
        }
      }
      if tagState != Sending && file < parsed {
        err, len := SendBlock();
      }
    }

    /** `http_check_eof`: the next block, if there is a buffer for it and the file can be read. If an insert is
        still on its way, its end is marked by a place in the block that is gone; what the server does then is
        not followed any further (`stuck`). */
    method CheckEof() returns (more: bool, stuck: bool)
      requires Valid() && left == 0 && !closed && !failed
      modifies this
      ensures Valid() && sent == old(sent) && old(ends) <= ends
      ensures stuck ==> pos < |disk| && tagState == Sending
      ensures closed && !failed <==> old(pos) == |disk|
      ensures failed ==> closed
      ensures more ==> !stuck && !closed
      ensures !more ==> left == 0 && pos == old(pos)
    {
      hide SentOk, TagAt, ScanAt, Plain, Step, Abstract;
      if pos == |disk| {
        closed := true;
        return false, false;
      }
      var buffer: bool, readable: bool := *, *;
      if !buffer {
        return false, false;
      }
      if !readable {
        closed, failed := true, true;
        return false, false;
      }
      if tagState == Sending {
        return false, true;
      }
      var count: nat :| 1 <= count <= |disk| - pos;
      ReadBlock(count);
      return true, false;
    }

    method ReadBlock(count: nat)
      requires Valid() && left == 0 && tagState != Sending && 1 <= count <= |disk| - pos
      modifies this`buf, this`pos, this`file, this`parsed, this`left, this`parseLeft, this`ends
      ensures Valid() && old(ends) <= ends && left > 0
    {
      hide SentOk, TagAt, ScanAt, Plain, Step, Abstract, Scanning;
      ghost var from := Sent();
      assert from == Scanned() == pos;
      buf := disk[pos..pos + count];
      pos := pos + count;
      file, parsed, left, parseLeft := 0, 0, count, count;
      ends := ends + {pos};
      assert Sent() == Scanned() == from;
    }

    /** What happens to a stuck insert when the next block is as long as the mark of the tag's end, and TCP
        takes everything: so much of the new block is sent first, then the rest of the insert. What has been
        sent then is not a prefix of the output anymore, unless the two happen to begin alike. */
    method SendStale(count: nat)
      requires Valid() && left == 0 && tagState == Sending && 0 < tagEnd <= count <= |disk| - pos
      modifies this
      ensures sent == old(sent) + disk[old(pos)..old(pos) + old(tagEnd)] + old(Pending())
      ensures old(Pending()) != "" && old(Pending())[0] != disk[old(pos)] ==> !(sent <= Out(disk, insert, |disk|))
    {
      hide Out, SentOk, TagAt, ScanAt, Plain, Step, Abstract, Scanning;
      SentSoFar();
      ghost var rest, block := Pending(), disk[pos..pos + tagEnd];
      NotPrefix(sent, block, rest, Out(disk, insert, |disk|));
      buf := disk[pos..pos + count];
      pos := pos + count;
      file, parsed, left, parseLeft := 0, 0, count, count;
      ends := ends + {pos};
      sent := sent + buf[file..tagEnd];
      file, left := tagEnd, left - tagEnd;
      assert buf[0..tagEnd] == block;
      sent := sent + tagInsert[tagIndex..];
      tagIndex, tagState := 0, Outside;
    }

    /** `http_send` */
    method Send() returns (stuck: bool)
      requires Valid() && !closed && !failed
      modifies this
      ensures Valid() && old(ends) <= ends && (failed ==> closed)
      ensures stuck ==> tagState == Sending && left == 0
      ensures closed && !failed ==> left == 0 && pos == |disk|
    {
      hide SentOk, TagAt, ScanAt, Plain, Step;
      if left == 0 {
        var more;
        more, stuck := CheckEof();
        if !more {
          return;
        }
      }
      SendDataSsi();
      stuck := false;
      if left == 0 && pos == |disk| {
        closed := true;
      }
    }

    // What has been sent is never wrong, and is all there is to send once the file is at its end.
    lemma SentSoFar()
      requires Valid()
      ensures sent <= Out(disk, insert, |disk|)
      ensures left == 0 ==> sent + Pending() <= Out(disk, insert, |disk|)
      ensures left == 0 && pos == |disk| ==> sent + Pending() == Out(disk, insert, |disk|)
      ensures left == 0 && tagState == Sending ==> pos in ends && TagAt(disk, pos).Some?
      ensures tagState == Sending ==> tagIndex <= |tagInsert|
    {
      hide TagAt, ScanAt, Step, Out;
      var from, to := Sent(), Scanned();
      if tagState == Sending {
        OutAt(disk, insert, to);
        assert tagInsert[..tagIndex] + tagInsert[tagIndex..] == tagInsert;
        assert OutBefore(disk, insert, to) + tagInsert[..tagIndex] + tagInsert[tagIndex..] == OutBefore(disk, insert, to) + tagInsert;
        OutGrows(disk, insert, to, |disk|);
        OutGrows(disk, insert, from, |disk|);
        assert from == to ==> sent <= Out(disk, insert, to);
      } else {
        OutGrows(disk, insert, from, |disk|);
        assert sent + "" == sent;
      }
    }
  }

  /** Over every run of the server, with any blocks and any answers of TCP: what has been sent is a prefix
      of the output. Unless a read fails, it goes wrong only at a tag that ends exactly where a block ends: the server is stuck
      with its insert when there is another block, and drops the rest of the insert when there is none. */
  method Serve(disk: string, insert: string -> string, inMemory: bool)
    returns (sent: string, closed: bool, failed: bool, stuck: bool, ghost ends: set<nat>, ghost lost: string)
    ensures sent <= Out(disk, insert, |disk|)
    ensures stuck ==> exists e :: e in ends && e <= |disk| && TagAt(disk, e).Some?
    ensures closed && !failed ==> sent + lost == Out(disk, insert, |disk|)
    ensures closed && !failed && lost != "" ==> |disk| in ends && TagAt(disk, |disk|).Some?
    ensures closed && !failed && (forall e :: e in ends && e <= |disk| ==> TagAt(disk, e).None?) ==> sent == Out(disk, insert, |disk|)
    ensures sent <= Included(disk, insert)
    ensures stuck ==> exists e :: e in ends && EndsTag(disk, e)
    ensures closed && !failed ==> sent + lost == Included(disk, insert) && (lost != "" ==> |disk| in ends && EndsTag(disk, |disk|))
    ensures closed && !failed && (forall e :: e in ends ==> !EndsTag(disk, e)) ==> sent == Included(disk, insert)
  {
    hide Out, TagAt, SentOk, ScanAt, Plain, Connection.Abstract, Connection.Scanning, Included, EndsTag;
    OutIncluded(disk, insert);
    forall k: nat | k <= |disk| && TagAt(disk, k).Some? ensures EndsTag(disk, k) {
      TagEnds(disk, k);
    }
    var c := new Connection(disk, insert, inMemory);
    var rounds: nat := *;
    stuck := false;
    while rounds > 0 && !c.closed && !stuck
      invariant c.Valid() && c.disk == disk && c.insert == insert && fresh(c)
      invariant stuck ==> c.tagState == Sending && c.left == 0
      invariant c.closed && !c.failed ==> c.left == 0 && c.pos == |disk|
      invariant c.failed ==> c.closed
    {
      stuck := c.Send();
      rounds := rounds - 1;
    }
    c.SentSoFar();
    assert c.sent + "" == c.sent;
    assert stuck ==> c.pos in c.ends && TagAt(disk, c.pos).Some?;
    return c.sent, c.closed, c.failed, stuck, c.ends, c.Pending();
  }

  lemma NotPrefix(sent: string, block: string, rest: string, all: string)
    requires sent + rest <= all && block != ""
    ensures rest != "" && rest[0] != block[0] ==> !(sent + block + rest <= all)
  {
    if rest != "" && sent + block + rest <= all {
      assert all[|sent|] == (sent + rest)[|sent|];
      assert all[|sent|] == (sent + block + rest)[|sent|];
    }
  }

  // What has been sent when the file has been sent up to `from` and scanned up to `to`.
  ghost predicate SentOk(disk: string, insert: string -> string, sending: bool, from: int, to: int, sent: string, tagInsert: string, tagIndex: nat) {
    && 0 <= from <= to <= |disk|
    && if !sending then Plain(disk, from, to) && sent == Out(disk, insert, from)
       else
         && to > 0 && tagIndex <= |tagInsert| && Plain(disk, from, to - 1)
         && if from < to then tagIndex == 0 && sent == Out(disk, insert, from) else sent == OutBefore(disk, insert, to) + tagInsert[..tagIndex]
  }

  lemma SentMore(disk: string, insert: string -> string, sending: bool, from: int, to: int, sent: string, tagInsert: string, tagIndex: nat, n: nat)
    requires SentOk(disk, insert, sending, from, to, sent, tagInsert, tagIndex) && from + n <= to
    ensures SentOk(disk, insert, sending, from + n, to, sent + disk[from..from + n], tagInsert, tagIndex)
  {
    hide Out, OutBefore, TagAt;
    if n == 0 {
      assert sent + disk[from..from + n] == sent;
    } else if sending && from + n == to {
      LastPlain(disk, insert, from, to);
      assert tagInsert[..0] == "";
      assert sent + disk[from..to] + "" == sent + disk[from..to];
    } else {
      OutPlain(disk, insert, from, from + n);
    }
  }

  lemma ScannedMore(disk: string, insert: string -> string, from: int, to: int, sent: string, t: string, i: nat, u: string, k: nat)
    requires SentOk(disk, insert, false, from, to, sent, t, i) && to < |disk|
    ensures TagAt(disk, to + 1).None? ==> SentOk(disk, insert, false, from, to + 1, sent, u, k)
    ensures TagAt(disk, to + 1).Some? && k == 0 ==> SentOk(disk, insert, true, from, to + 1, sent, u, k)
  {
    hide TagAt, Out, OutBefore;
  }

  // Outside of inserts their fields do not matter.
  lemma SentState(disk: string, insert: string -> string, from: int, to: int, sent: string, t: string, i: nat, u: string, k: nat)
    requires SentOk(disk, insert, false, from, to, sent, t, i)
    ensures SentOk(disk, insert, false, from, to, sent, u, k)
  {
  }

  lemma BlockSlice(disk: string, pos: nat, buf: string, file: nat, size: nat, len: nat)
    requires |buf| <= pos <= |disk| && buf == disk[pos - |buf|..pos] && len <= size && file + size <= |buf|
    ensures buf[file..file + size][..len] == disk[pos - |buf| + file..pos - |buf| + file + len]
  {
    var base := pos - |buf|;
    var a, b := buf[file..file + size][..len], disk[base + file..base + file + len];
    assert |a| == |b|;
    forall i | 0 <= i < len ensures a[i] == b[i] {
      assert a[i] == buf[file + i] == disk[base + file + i] == b[i];
    }
  }

  lemma LastPlain(disk: string, insert: string -> string, a: nat, b: nat)
    requires a < b <= |disk| && Plain(disk, a, b - 1)
    ensures OutBefore(disk, insert, b) == Out(disk, insert, a) + disk[a..b]
  {
    hide TagAt;
    OutPlain(disk, insert, a, b - 1);
    assert disk[a..b] == disk[a..b - 1] + [disk[b - 1]];
  }
}
