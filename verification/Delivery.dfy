/** The response writer: `write_connection` of serv.c, over the pages of page.c and the file sessions of file.c.

  Memory that is filled once and then only read is a sequence of bytes; a pointer is such a block and an offset.
 */
module Delivery {

  newtype byte = x: int | 0 <= x < 256

  datatype Ptr = Null | Ptr(block: seq<byte>, off: nat)

  predicate Readable(p: Ptr, len: nat) {
    len == 0 || (p.Ptr? && p.off + len <= |p.block|)
  }

  function Bytes(p: Ptr, len: nat): seq<byte>
    requires Readable(p, len)
  {
    if len == 0 then [] else p.block[p.off..p.off + len]
  }

  lemma OneBlock(a: seq<byte>, b: seq<byte>)
    ensures var w := a + b;
      && Readable(Ptr(w, 0), |a|) && Bytes(Ptr(w, 0), |a|) == a && Readable(Ptr(w, |a|), |b|)
      && Bytes(Ptr(w, |a|), |b|) == b && Readable(Ptr(w, 0), |a| + |b|) && Bytes(Ptr(w, 0), |a| + |b|) == w
  {
    assert (a + b)[..|a|] == a && (a + b)[|a|..] == b;
  }

  // ----- page.c

  /** Page kind 2: the body stays in a file. */
  const IN_FILE := 2

  class Page {
    var head: Ptr
    var headLen: nat
    var body: Ptr
    var bodysize: nat
    var range: nat
    var op: int

    ghost predicate HasParts()
      reads this
    {
      Readable(head, headLen) && Readable(body, bodysize)
    }

    /** Head and body as the reader of the reply is to see them. */
    ghost function Message(): seq<byte>
      requires HasParts()
      reads this
    {
      Bytes(head, headLen) + Bytes(body, bodysize)
    }

    /** The body follows the head in memory, so that both can be written from one pointer. */
    ghost predicate Contiguous()
      reads this
    {
      HasParts() && Readable(head, headLen + bodysize) && Bytes(head, headLen + bodysize) == Message()
    }

    /** `normalize_page`. */
    method Normalize()
      requires HasParts()
      modifies this`head, this`body
      ensures HasParts() && Message() == old(Message())
      ensures Bytes(head, headLen) == old(Bytes(head, headLen)) && Bytes(body, bodysize) == old(Bytes(body, bodysize))
      ensures Contiguous() <==> op != IN_FILE || old(Contiguous())
      ensures op == IN_FILE && bodysize == 0 ==> Contiguous()
    {
      if op == IN_FILE {
        return;
      }
      OneBlock(Bytes(head, headLen), Bytes(body, bodysize));
      hide Bytes, Readable;
      var data := Bytes(head, headLen) + Bytes(body, bodysize);
      head := Ptr(data, 0);
      body := Ptr(data, headLen);
    }

    /** `denormalize_page`: head and body get blocks of their own again. */
    method Denormalize()
      requires HasParts()
      modifies this`head, this`body
      ensures HasParts() && Message() == old(Message())
      ensures Bytes(head, headLen) == old(Bytes(head, headLen)) && Bytes(body, bodysize) == old(Bytes(body, bodysize))
      ensures op != IN_FILE ==>
        head == Ptr(old(Bytes(head, headLen)), 0) && body == Ptr(old(Bytes(body, bodysize)), 0)
    {
      if op == IN_FILE {
        return;
      }
      head, body := Ptr(Bytes(head, headLen), 0), Ptr(Bytes(body, bodysize), 0);
    }
  }

  // ----- file.c

  /** Lengths are 64-bit words; a file offset is a signed one. */
  const WORD := 0x1_0000_0000_0000_0000
  const OFF_MAX := 0x7FFF_FFFF_FFFF_FFFF

  class FileSession {
    /** What is in the file. */
    const data: seq<byte>
    const bufLen: nat
    /** The bytes of the last read. */
    var buf: seq<byte>
    var fdOff: nat
    var curOff: nat
    var fileLen: nat

    ghost predicate Valid()
      reads this
    {
      fileLen == |data| <= OFF_MAX && bufLen <= OFF_MAX && fdOff <= OFF_MAX && curOff <= OFF_MAX
    }

    /** `updoffset_file_session`: an offset that is negative as a signed word is not accepted. */
    method UpdOffset(offset: nat)
      requires Valid() && offset < WORD
      modifies this`fdOff, this`curOff
      ensures Valid()
      ensures if offset <= OFF_MAX then fdOff == curOff == offset else fdOff == old(fdOff) && curOff == old(curOff)
    {
      if offset <= OFF_MAX {
        fdOff := offset;
        curOff := offset;
      }
    }

    /** `read_file_session`: the next chunk, short at the end of the file.  The length is that of the bytes read exactly
        when the session stands within the file. */
    method Read() returns (chunk: nat)
      requires Valid() && fdOff == curOff
      modifies this`fdOff, this`buf
      ensures Valid() && |buf| <= bufLen && (chunk == |buf| <==> curOff <= fileLen) && fdOff == old(fdOff) + |buf|
      ensures curOff <= fileLen ==> curOff + chunk <= fileLen && buf == data[curOff..curOff + chunk]
      ensures curOff <= fileLen ==> chunk == if fileLen - curOff < bufLen then fileLen - curOff else bufLen
      ensures curOff > fileLen ==> chunk == WORD - (curOff - fileLen) && buf == []
    {
      chunk := if bufLen + curOff > fileLen then (fileLen - curOff) % WORD else bufLen;
      buf := if fdOff <= |data| then data[fdOff..if fdOff + chunk <= |data| then fdOff + chunk else |data|] else [];
      fdOff := fdOff + |buf|;
    }
  }

  // ----- serv.c

  datatype State = ST_NONE | ST_PRCS | ST_ERROR | ST_DONE
  datatype Switch = SS_HEAD | SS_BODY | SS_FILE | SS_DONE

  /** What a `write` may come back with: some bytes taken, an error to be retried, or a broken pipe. */
  datatype Outcome = Accepted(n: nat) | Retry | Broken

  /** The pointer stands in front of `len` bytes that are to follow after the first `k` of the reply. */
  ghost predicate Aims(p: Ptr, len: nat, goal: seq<byte>, k: int) {
    Readable(p, len) && 0 <= k <= k + len <= |goal| && Bytes(p, len) == goal[k..k + len]
  }

  ghost predicate Sent(wire: seq<byte>, goal: seq<byte>, k: int) {
    0 <= k <= |goal| && wire == goal[..k]
  }

  lemma SentPrefix(wire: seq<byte>, goal: seq<byte>, k: int)
    requires Sent(wire, goal, k)
    ensures |wire| == k <= |goal| && wire <= goal && (k == |goal| ==> wire == goal)
  {
  }

  /** How many of `len` bytes offered the socket takes. */
  ghost function Taken(o: Outcome, len: int): int {
    if !o.Accepted? then 0 else if o.n < len then o.n else len
  }

  /** `write` on the socket, which has taken `wire` before. */
  method Write(p: Ptr, len: nat, o: Outcome, ghost goal: seq<byte>, ghost k: int, ghost wire: seq<byte>)
    returns (res: int, ghost wire': seq<byte>)
    requires Aims(p, len, goal, k) && Sent(wire, goal, k)
    ensures o == Retry || o == Broken ==> res < 0 && wire' == wire
    ensures o.Accepted? ==> 0 <= res == Taken(o, len) <= len
    ensures o.Accepted? ==> wire' == wire + Bytes(p, len)[..res] && Sent(wire', goal, k + res)
  {
    wire' := wire;
    match o
    case Accepted(n) =>
      res := if n < len then n else len;
      wire' := wire + Bytes(p, len)[..res];
    case _ => res := -1;
  }

  /** A pointer that moves on with the bytes written keeps its place in the reply. */
  lemma Advance(p: Ptr, len: nat, res: nat, goal: seq<byte>, k: int)
    requires Aims(p, len, goal, k) && res <= len
    ensures Aims(if p.Ptr? then p.(off := p.off + res) else p, len - res, goal, k + res)
  {
    assert p.Ptr? && res < len ==> p.block[p.off + res..p.off + len] == Bytes(p, len)[res..];
    assert Bytes(p, len)[res..] == goal[k + res..k + len];
  }

  /** A chunk read from the file is the next stretch of the reply. */
  lemma ChunkOfFile(data: seq<byte>, range: nat, goal: seq<byte>, mid: nat, off: nat, buf: seq<byte>)
    requires range <= off <= off + |buf| <= |data| && buf == data[off..off + |buf|]
    requires mid <= |goal| && goal[mid..] == data[range..]
    ensures Aims(Ptr(buf, 0), |buf|, goal, mid + (off - range)) && |goal| - mid == |data| - range
  {
    assert data[off..off + |buf|] == data[range..][off - range..off - range + |buf|];
    assert goal[mid..][off - range..off - range + |buf|] == goal[mid + (off - range)..mid + (off - range) + |buf|];
    assert |goal[mid..]| == |data[range..]|;
  }

  /** Head and body, or what is left of them. */
  method SendBody(ptr: Ptr, len: nat, o: Outcome, ghost goal: seq<byte>, ghost mid: nat, ghost wire: seq<byte>)
    returns (res: int, ptr': Ptr, len': nat, ghost wire': seq<byte>)
    requires Aims(ptr, len, goal, mid - len) && Sent(wire, goal, mid - len)
    ensures res < 0 <==> !o.Accepted?
    ensures len' == len - Taken(o, len) && |wire'| == |wire| + Taken(o, len)
    ensures Aims(ptr', len', goal, mid - len') && Sent(wire', goal, mid - len')
  {
    hide Bytes;
    res, wire' := Write(ptr, len, o, goal, mid - len, wire);
    ptr', len' := ptr, len;
    if res >= 0 {
      Advance(ptr, len, res, goal, mid - len);
      len' := len - res;
      ptr' := if ptr.Ptr? then ptr.(off := ptr.off + res) else ptr;
    }
  }

  /** The file session is where the next chunk begins. */
  ghost predicate Positioned(at: Switch, left: nat, file: FileSession)
    reads file
  {
    file.curOff == file.fdOff && file.curOff == if at == SS_FILE then file.fileLen - left else 0
  }

  lemma SameLength(data: seq<byte>, range: nat, goal: seq<byte>, mid: nat)
    requires range <= |data| && mid <= |goal| && goal[mid..] == data[range..]
    ensures |goal| - mid == |data| - range
  {
    assert |goal[mid..]| == |data[range..]|;
  }

  /** Before the first chunk the session is put to the start of the range.  It then stands where the bytes to go begin
      exactly when the range begins within the file. */
  method Locate(file: FileSession, range: nat, left: nat) returns (left': nat)
    requires file.Valid() && range < WORD
    requires if left == 0 then range == 0 ==> Positioned(SS_BODY, 0, file) else Positioned(SS_FILE, left, file)
    modifies file`curOff, file`fdOff
    ensures file.Valid() && left' == if left == 0 then (file.fileLen - range) % WORD else left
    ensures left != 0 || range <= file.fileLen <==> Positioned(SS_FILE, left', file)
    ensures if left == 0 && 0 < range <= OFF_MAX then file.curOff == file.fdOff == range
            else file.curOff == old(file.curOff) && file.fdOff == old(file.fdOff)
  {
    left' := left;
    if left' == 0 {
      left' := file.fileLen;
      if range != 0 {
        left' := (left' - range) % WORD;
        file.UpdOffset(range);
      }
    }
  }

  /** What is set up at the start of the file part, for any range: the length to go and the first chunk are those of
      the file from the range on exactly when the range begins within the file.  Otherwise the length wraps around. */
  method FirstChunk(file: FileSession, range: nat) returns (left: nat, chunk: nat)
    requires file.Valid() && file.curOff == file.fdOff == 0 && range < WORD
    modifies file`curOff, file`fdOff, file`buf
    ensures range <= file.fileLen <==> left <= file.fileLen
    ensures range <= file.fileLen ==> left == |file.data[range..]| && file.buf <= file.data[range..]
    ensures range > file.fileLen ==> left == WORD - (range - file.fileLen)
    ensures range <= OFF_MAX ==> (range <= file.fileLen <==> chunk == |file.buf|)
    ensures file.fileLen < range <= OFF_MAX ==> chunk == left
  {
    left := Locate(file, range, 0);
    chunk := file.Read();
  }

  /** The next chunk of the file: as much as the buffer holds, or the rest. */
  ghost function Chunk(file: FileSession, goal: seq<byte>, wire: seq<byte>): int {
    if |goal| - |wire| < file.bufLen then |goal| - |wire| else file.bufLen
  }

  /** One chunk of the file; the position is set up before the first one. */
  method SendFile(file: FileSession, range: nat, left: nat, o: Outcome, ghost goal: seq<byte>, ghost mid: nat,
      ghost wire: seq<byte>)
    returns (res: int, left': nat, ghost wire': seq<byte>)
    requires file.Valid() && range <= file.fileLen && mid <= |goal| && goal[mid..] == file.data[range..]
    requires if left == 0 then Sent(wire, goal, mid) && (range == 0 ==> Positioned(SS_BODY, 0, file))
             else Positioned(SS_FILE, left, file) && mid + left <= |goal| && Sent(wire, goal, |goal| - left)
    modifies file`curOff, file`fdOff, file`buf
    ensures file.Valid() && (res < 0 <==> !o.Accepted?) && (o != Broken ==> Positioned(SS_FILE, left', file))
    ensures mid + left' <= |goal| && Sent(wire', goal, |goal| - left')
    ensures |wire'| == |wire| + Taken(o, Chunk(file, goal, wire))
    ensures !o.Accepted? && left' == 0 ==> mid == |goal|
  {
    hide Aims, Bytes, Readable, Sent;
    SameLength(file.data, range, goal, mid);
    left' := Locate(file, range, left);
    var oldOff := file.curOff;
    var flen := file.Read();
    ChunkOfFile(file.data, range, goal, mid, oldOff, file.buf);
    SentPrefix(wire, goal, |goal| - left');
    res, wire' := Write(Ptr(file.buf, 0), flen, o, goal, |goal| - left', wire);
    if res >= 0 { SentPrefix(wire', goal, |goal| - left' + res); }
    if res < 0 && o != Broken {
      file.UpdOffset(oldOff);
    } else if res >= 0 {
      left' := left' - res;
      file.UpdOffset(oldOff + res);
    }
  }

  /** The page yields the first `mid` bytes of the reply and, where its body is in a file, the session yields the
      others. */
  ghost predicate Feeds(page: Page, file: FileSession?, goal: seq<byte>, mid: nat)
    reads page, file
  {
    && page.Contiguous() && mid <= |goal| && page.Message() == goal[..mid]
    && if page.op == IN_FILE
       then file != null && file.Valid() && page.range <= file.fileLen && goal[mid..] == file.data[page.range..]
       else mid == |goal|
  }

  lemma HeadAims(page: Page, goal: seq<byte>, mid: nat, wire: seq<byte>)
    requires page.Contiguous() && mid <= |goal| && page.Message() == goal[..mid]
    ensures Aims(page.head, page.bodysize + page.headLen, goal, 0) && mid == page.bodysize + page.headLen
    ensures Sent(wire, goal, 0) <==> wire == []
  {
  }

  /** How many bytes have been sent when `left` bytes of the current part are to go. */
  ghost function Mark(at: Switch, left: nat, goal: seq<byte>, mid: nat): int {
    match at
    case SS_HEAD => 0
    case SS_BODY => mid - left
    case _ => |goal| - left
  }

  class Connection {
    var rxstat: State
    var wxstat: State
    var hbSwitch: Switch
    var dataPtr: Ptr
    var dataLen: nat
    var page: Page?
    var file: FileSession?
    /** The reply: `mid` bytes of head and body, and what follows from a file. */
    ghost var goal: seq<byte>
    ghost var mid: nat
    /** The bytes the socket has taken. */
    ghost var wire: seq<byte>

    ghost predicate Active()
      reads this
    {
      wxstat != ST_ERROR && wxstat != ST_DONE && page != null
    }

    ghost predicate Progress()
      reads this, page, file
    {
      && page != null && Feeds(page, file, goal, mid) && hbSwitch != SS_DONE
      && Sent(wire, goal, Mark(hbSwitch, dataLen, goal, mid))
      && (hbSwitch == SS_BODY ==> Aims(dataPtr, dataLen, goal, mid - dataLen))
      && (hbSwitch == SS_FILE ==> page.op == IN_FILE && mid + dataLen <= |goal| && (dataLen == 0 ==> mid == |goal|))
      && (page.op == IN_FILE ==> Positioned(hbSwitch, dataLen, file))
    }

    ghost predicate Valid()
      reads this, page, file
    {
      && wire <= goal && (wxstat == ST_DONE ==> wire == goal)
      && (Active() ==> Progress())
    }

    /** Bytes still to go, counting one for a start not yet made and one for the final state. */
    ghost function Left(): int
      reads this
    {
      if wxstat == ST_DONE || wxstat == ST_ERROR then 0
      else |goal| - |wire| + 1 + if hbSwitch == SS_HEAD then 1 else 0
    }

    /** Nothing is left for a call to write: the whole page has been sent, and no file follows. */
    ghost predicate Exhausted()
      reads this, page
    {
      page != null && page.op != IN_FILE && hbSwitch != SS_HEAD && dataLen == 0
    }

    /** The writer stands at the file, or gets there with this call. */
    ghost predicate AtFile()
      reads this
    {
      hbSwitch == SS_FILE || (hbSwitch == SS_BODY && dataLen == 0)
    }

    /** How many bytes the next call offers to the socket: the rest of head and body, or a chunk of the file. */
    ghost function Offer(): int
      reads this, page, file
    {
      if page == null || Exhausted() then 0
      else if !AtFile() then if hbSwitch == SS_HEAD then page.bodysize + page.headLen else dataLen
      else if file == null then 0 else Chunk(file, goal, wire)
    }

    /** The writer stands at the file but has not set up its position there. */
    ghost predicate Entering()
      reads this, page, file
    {
      && page != null && page.op == IN_FILE && Feeds(page, file, goal, mid) && hbSwitch == SS_FILE && dataLen == 0
      && Sent(wire, goal, mid) && (page.range == 0 ==> Positioned(SS_BODY, 0, file))
    }

    /** Takes up the next part of the reply, or finds that all has been sent. */
    method Select() returns (more: bool)
      requires Progress() && wxstat == ST_PRCS
      modifies this`hbSwitch, this`dataPtr, this`dataLen, this`wxstat
      ensures !more <==> old(Exhausted())
      ensures !more ==> wxstat == ST_DONE && wire == goal
      ensures more ==> (hbSwitch == SS_FILE <==> old(AtFile()))
      ensures more && hbSwitch == SS_BODY ==> dataLen == old(Offer())
      ensures more ==> wxstat == ST_PRCS
      ensures more ==>
        (hbSwitch == SS_BODY && Progress()) ||
        (hbSwitch == SS_FILE && (Entering() || (dataLen > 0 && Progress())))
      ensures more && hbSwitch == SS_BODY && dataLen == 0 ==> old(hbSwitch) == SS_HEAD
      ensures more && hbSwitch != SS_BODY ==> old(hbSwitch) != SS_HEAD
    {
      hide Aims, Bytes, Readable, Sent;
      more := true;
      HeadAims(page, goal, mid, wire);
      SentPrefix(wire, goal, Mark(hbSwitch, dataLen, goal, mid));
      if hbSwitch == SS_HEAD {
        dataPtr := page.head;
        dataLen := page.bodysize + page.headLen;
        hbSwitch := SS_BODY;
      } else if dataLen == 0 {
        if page.op == IN_FILE {
          hbSwitch := SS_FILE;
        } else {
          wxstat := ST_DONE;
          more := false;
        }
      }
    }

    /** One call of `write_connection`; `o` is what its `write` comes back with. */
    method WriteConnection(o: Outcome)
      requires Valid()
      modifies this, file
      ensures Valid() && goal == old(goal) && page == old(page)
      ensures file == if old(Active() && !Exhausted()) && wxstat == ST_DONE then null else old(file)
      ensures if old(page) == null && old(wxstat) != ST_ERROR && old(wxstat) != ST_DONE
              then rxstat == wxstat == ST_ERROR else rxstat == old(rxstat)
      ensures old(wxstat) == ST_ERROR || old(wxstat) == ST_DONE ==> wxstat == old(wxstat)
      ensures !old(Active()) ==> wire == old(wire)
      ensures old(Active()) ==> wxstat != ST_NONE && (old(Exhausted()) ==> wxstat == ST_DONE)
      ensures old(Active()) && !old(Exhausted()) ==> (wxstat == ST_ERROR <==> o == Broken)
      ensures old(Active()) && !old(Exhausted()) ==>
        (wxstat == ST_DONE <==> o.Accepted? && old(AtFile()) && wire == goal)
      ensures old(Active()) ==> |wire| == |old(wire)| + Taken(o, old(Offer()))
      ensures old(Active()) && o.Accepted? && o.n > 0 && (old(file) != null ==> old(file).bufLen > 0) ==>
        Left() < old(Left())
    {
      hide Sent, Aims, Readable, Bytes;
      if wxstat == ST_ERROR || wxstat == ST_DONE {
        return;
      }
      if page == null {
        rxstat, wxstat := ST_ERROR, ST_ERROR;
        return;
      }
      wxstat := ST_PRCS;
      Proceed(o);
    }

    method Proceed(o: Outcome)
      requires Progress() && wxstat == ST_PRCS
      modifies this`dataPtr, this`dataLen, this`hbSwitch, this`wire, this`wxstat, this`file, file
      ensures Valid() && file == if !old(Exhausted()) && wxstat == ST_DONE then null else old(file)
      ensures wxstat != ST_NONE && (old(Exhausted()) ==> wxstat == ST_DONE)
      ensures !old(Exhausted()) ==> (wxstat == ST_ERROR <==> o == Broken)
      ensures !old(Exhausted()) ==> (wxstat == ST_DONE <==> o.Accepted? && old(AtFile()) && wire == goal)
      ensures |wire| == |old(wire)| + Taken(o, old(Offer()))
      ensures o.Accepted? && o.n > 0 && (old(file) != null ==> old(file).bufLen > 0) ==> Left() < old(Left())
    {
      hide Sent, Aims, Readable, Bytes;
      SentPrefix(wire, goal, Mark(hbSwitch, dataLen, goal, mid));
      var more := Select();
      if !more {
        return;
      }
      if hbSwitch == SS_BODY {
        WriteBody(o);
      } else {
        WriteFile(o);
      }
    }

    method WriteBody(o: Outcome)
      requires hbSwitch == SS_BODY && Progress() && wxstat == ST_PRCS
      modifies this`dataPtr, this`dataLen, this`wire, this`wxstat
      ensures Valid() && wxstat == if o == Broken then ST_ERROR else ST_PRCS
      ensures |wire| == |old(wire)| + Taken(o, old(dataLen))
    {
      hide Sent, Aims, Readable, Bytes;
      var res;
      SentPrefix(wire, goal, mid - dataLen);
      res, dataPtr, dataLen, wire := SendBody(dataPtr, dataLen, o, goal, mid, wire);
      SentPrefix(wire, goal, mid - dataLen);
      if res < 0 && o == Broken {
        wxstat := ST_ERROR;
      }
    }

    method WriteFile(o: Outcome)
      requires hbSwitch == SS_FILE && (Entering() || (dataLen > 0 && Progress())) && wxstat == ST_PRCS
      modifies this`dataLen, this`hbSwitch, this`wire, this`wxstat, this`file, file
      ensures Valid() && file == (if wxstat == ST_DONE then null else old(file))
      ensures wxstat == ST_PRCS ==> hbSwitch == SS_FILE
      ensures wxstat ==
        if o == Broken then ST_ERROR else if o.Accepted? && wire == goal then ST_DONE else ST_PRCS
      ensures |wire| == |old(wire)| + Taken(o, Chunk(old(file), goal, old(wire)))
    {
      hide Sent, Aims, Readable, Bytes;
      var res;
      res, dataLen, wire := SendFile(file, page.range, dataLen, o, goal, mid, wire);
      SentPrefix(wire, goal, |goal| - dataLen);
      if res < 0 {
        wxstat := if o == Broken then ST_ERROR else ST_PRCS;
        return;
      }
      if hbSwitch == SS_FILE && dataLen == 0 {
        hbSwitch := SS_DONE;
      }
      if hbSwitch == SS_DONE {
        file := null;
        wxstat := ST_DONE;
      }
    }
  }

  ghost predicate Flows(os: seq<Outcome>) {
    forall i | 0 <= i < |os| :: os[i].Accepted? && os[i].n > 0
  }

  /** Whatever the socket does, it never takes anything but a beginning of the reply, and when the connection is
      done it has taken all of it.  A broken pipe that meets an unfinished reply ends in an error, and nothing else
      does.  If each call gets some bytes through, the connection is done after as many calls as there are bytes, and
      two more. */
  method Deliver(c: Connection, os: seq<Outcome>)
    requires c.Valid()
    modifies c, c.file
    ensures c.Valid() && c.goal == old(c.goal) && c.wire <= c.goal && (c.wxstat == ST_DONE ==> c.wire == c.goal)
    ensures old(c.Active()) && Flows(os) && |os| >= |c.goal| + 2 && (old(c.file) != null ==> old(c.file).bufLen > 0)
      ==> c.wxstat == ST_DONE
    ensures old(c.Active()) && Broken in os && c.wire != c.goal ==> c.wxstat == ST_ERROR
    ensures old(c.Active()) && c.wxstat == ST_ERROR ==> Broken in os
  {
    hide Sent, Aims, Readable, Bytes;
    ghost var file := c.file;
    ghost var flows := c.Active() && Flows(os) && (file != null ==> file.bufLen > 0);
    for i := 0 to |os|
      invariant c.Valid() && c.goal == old(c.goal) && c.page == old(c.page) && (c.file == file || c.file == null)
      invariant flows ==> c.wxstat == ST_DONE || (c.Active() && c.Left() <= |c.goal| + 2 - i)
      invariant old(c.Active()) ==> (c.wxstat == ST_ERROR ==> Broken in os) && (Broken in os[..i] ==> !c.Active())
    {
      assert os[..i + 1] == os[..i] + [os[i]];
      c.WriteConnection(os[i]);
    }
    assert os[..|os|] == os;
  }
}
