/**
 * `http_conn`: one client connection. It owns a 2048-byte read buffer that
 * `read_once` fills and the request parser scans and splits in place, and a
 * 1024-byte write buffer the reply is composed in; `write` then sends the reply
 * head and the requested file with `writev`. The socket, epoll, `mmap` and the
 * database are left out; `writev` is a given sequence of results.
 */
module HttpConn {
  import opened Wrappers
  import opened CString
  import opened HttpParse
  import opened HttpRoute
  import opened HttpResponse
  import opened HttpWrite

  /** `memset(a, '\0', a.Length)`. */
  method Clear(a: array<char>)
    modifies a
    ensures forall i :: 0 <= i < a.Length ==> a[i] == '\0'
  {
    forall i | 0 <= i < a.Length {
      a[i] := '\0';
    }
  }

  /** The scanning loop of `parse_line`: the first CR or LF in `a[checked..read]`. */
  method FindTerm(a: array<char>, checked: int, read: int) returns (j: int)
    requires 0 <= checked && read <= a.Length
    ensures j == FirstTerm(a[..], checked, read)
  {
    j := checked;
    while j < read && !IsTerm(a[j])
      invariant checked <= j && (checked < read ==> j <= read)
      invariant FirstTerm(a[..], j, read) == FirstTerm(a[..], checked, read)
      decreases read - j
    {
      j := j + 1;
    }
  }

  /** `parse_line` on the buffer `a`: scans for the line end and zeroes a CR LF pair in place. */
  method ScanLine(a: array<char>, checked: int, read: int) returns (status: LineStatus, next: int)
    requires 0 <= checked && read <= a.Length
    modifies a
    ensures LineResult(status, next, a[..]) == ParseLineSpec(old(a[..]), checked, read)
  {
    var j := FindTerm(a, checked, read);
    if j >= read {
      return LineOpen, j;
    }
    if a[j] == '\r' {
      if j + 1 == read {
        return LineOpen, j;
      } else if a[j + 1] == '\n' {
        a[j] := '\0';
        a[j + 1] := '\0';
        return LineOk, j + 2;
      }
      return LineBad, j;
    } else if j > 1 && a[j - 1] == '\r' {
      a[j - 1] := '\0';
      a[j] := '\0';
      return LineOk, j + 1;
    }
    return LineBad, j;
  }

  /** `vsnprintf(a + idx, size, "%s", text)` for `size > 0`: copies what fits in `size - 1` bytes and a NUL. */
  method Print(a: array<char>, idx: int, text: string, size: int)
    requires 0 <= idx && 0 < size && idx + size <= a.Length
    modifies a
    ensures a[..] == Printed(old(a[..]), idx, text, size)
  {
    var n := if |text| < size - 1 then |text| else size - 1;
    for k := 0 to n
      invariant forall m :: 0 <= m < a.Length ==> a[m] == if idx <= m < idx + k then text[m - idx] else old(a[m])
    {
      a[idx + k] := text[k];
    }
    a[idx + n] := '\0';
    ghost var b := old(a[..])[..idx] + text[..n] + ['\0'] + old(a[..])[idx + n + 1..];
    assert forall m :: 0 <= m < a.Length ==> a[m] == b[m];
  }

  /** What `recv` reports once the bytes that have arrived are taken: `EAGAIN`, the end of the stream, or another error. */
  datatype RecvEnd = WouldBlock | PeerClosed | RecvFailed

  /** What one call of `writev` reports: bytes written, `EAGAIN`, or another error. */
  datatype WriteResult = Wrote(n: nat) | Again | Failed

  /** `writev` never reports more bytes than are left to send, `remaining` before the first of `results`. */
  predicate WritesFit(results: seq<WriteResult>, remaining: int)
    decreases |results|
  {
    results == [] ||
    match results[0]
    case Wrote(n) => n <= remaining && WritesFit(results[1..], remaining - n)
    case _ => true
  }

  /**
   * The lines `process_write` adds for `ret`: every error reply is a status
   * line, the head and a fixed page, where BAD_REQUEST sends a 404; a non-empty
   * file only the status line and the head (its `off_t` size passed as an
   * `int`); an empty file an empty page. Other codes add nothing.
   */
  function ReplyParts(ret: HttpCode, linger: bool, size: nat): (r: seq<string>)
    ensures r == [] <==> ret !in {InternalError, BadRequest, ForbiddenRequest, FileRequest}
    ensures r != [] ==> (|r| == 4 || |r| == 5) && r[2] == LingerLine(linger) && r[3] == BLANK_LINE
    ensures |r| == 5 ==> r[1] == ContentLengthLine(|r[4]|)
    ensures |r| == 4 <==> ret == FileRequest && size != 0
    ensures |r| == 4 ==> r[1] == ContentLengthLine(ToInt32(size))
    ensures ret == BadRequest ==> r[0] == StatusLine(404, ERROR_404_TITLE) && r[4] == ERROR_404_FORM
    ensures ret == FileRequest ==> r[0] == StatusLine(200, OK_200_TITLE) && (size == 0 ==> r[4] == OK_STRING)
  {
    match ret
    case InternalError => HeadParts(500, ERROR_500_TITLE, |ERROR_500_FORM|, linger) + [ERROR_500_FORM]
    case BadRequest => HeadParts(404, ERROR_404_TITLE, |ERROR_404_FORM|, linger) + [ERROR_404_FORM]
    case ForbiddenRequest => HeadParts(403, ERROR_403_TITLE, |ERROR_403_FORM|, linger) + [ERROR_403_FORM]
    case FileRequest =>
      if size != 0 then HeadParts(200, OK_200_TITLE, ToInt32(size), linger)
      else HeadParts(200, OK_200_TITLE, |OK_STRING|, linger) + [OK_STRING]
    case _ => []
  }

  /**
   * From the empty write buffer every reply is written in full: the buffer then
   * holds its lines in order, and the last `add_response` succeeds.
   */
  lemma ReplyFromEmpty(buf: seq<char>, ret: HttpCode, linger: bool, size: nat)
    requires |buf| == WRITE_BUFFER_SIZE
    ensures var r := AddEach(buf, 0, ReplyParts(ret, linger, size));
      r.ok && r.idx == |Concat(ReplyParts(ret, linger, size))| < WRITE_BUFFER_SIZE - 1
      && r.buf[..r.idx] == Concat(ReplyParts(ret, linger, size))
  {
    match ret
    case InternalError => ReplyFits(buf, 500, ERROR_500_TITLE, |ERROR_500_FORM|, linger, [ERROR_500_FORM]);
    case BadRequest => ReplyFits(buf, 404, ERROR_404_TITLE, |ERROR_404_FORM|, linger, [ERROR_404_FORM]);
    case ForbiddenRequest => ReplyFits(buf, 403, ERROR_403_TITLE, |ERROR_403_FORM|, linger, [ERROR_403_FORM]);
    case FileRequest =>
      if size != 0 {
        ReplyFits(buf, 200, OK_200_TITLE, ToInt32(size), linger, []);
        assert HeadParts(200, OK_200_TITLE, ToInt32(size), linger) + [] == ReplyParts(ret, linger, size);
      } else {
        ReplyFits(buf, 200, OK_200_TITLE, |OK_STRING|, linger, [OK_STRING]);
      }
    case _ =>
  }

  /**
   * The reply to a FILE_REQUEST: the head alone for a non-empty file, the empty
   * page for an empty one. It only unfolds `ReplyParts` for `FileRequest`.
   */
  lemma FileParts(linger: bool, size: nat)
    ensures size != 0 ==> ReplyParts(FileRequest, linger, size) == HeadParts(200, OK_200_TITLE, ToInt32(size), linger)
    ensures size == 0 ==> ReplyParts(FileRequest, linger, size) == HeadParts(200, OK_200_TITLE, |OK_STRING|, linger) + [OK_STRING]
  {
  }

  /** One `add_response` followed by the rest of a list of them. */
  lemma AddEachCons(buf: seq<char>, idx: int, p: string, rest: seq<string>)
    requires |buf| == WRITE_BUFFER_SIZE && 0 <= idx
    ensures var a := AddResponseSpec(buf, idx, p);
      AddEach(buf, idx, [p] + rest) == if rest == [] then a else AddEach(a.buf, a.idx, rest)
  {
    assert ([p] + rest)[1..] == rest;
  }

  /** What `write()` ends with: its result (`None` when the given `writev` results run out), the byte accounting, and whether it resets the connection with `init()`. */
  datatype WriteOutcome = WriteOutcome(ret: Option<bool>, sending: Progress, reset: bool)

  /**
   * The loop of `write()` over the `writev` results: `EAGAIN` waits for the next
   * write event and keeps the connection, another error closes it; bytes
   * written move the `iovec`s on past them, and once nothing is left a
   * keep-alive connection is reset for its next request and any other is closed.
   */
  function WriteLoop(p: Progress, head: int, linger: bool, results: seq<WriteResult>): (o: WriteOutcome)
    decreases |results|
    ensures o.sending.haveSent + o.sending.toSend == p.haveSent + p.toSend
    ensures o.reset ==> linger && o.ret == Some(true) && o.sending.toSend <= 0
    ensures p.toSend > 0 ==> (o.reset <==> linger && o.sending.toSend <= 0)
  {
    if results == [] then WriteOutcome(None, p, false)
    else
      match results[0]
      case Again => WriteOutcome(Some(true), p, false)
      case Failed => WriteOutcome(Some(false), p, false)
      case Wrote(n) =>
        var q := Advance(p, head, n);
        if q.toSend <= 0 then WriteOutcome(Some(linger), q, linger)
        else WriteLoop(q, head, linger, results[1..])
  }

  /**
   * Whatever `writev` reports, the `iovec`s keep describing the bytes not yet
   * sent, no byte is counted twice, and a reply that `write()` finishes has gone
   * out in full; the connection is reset exactly when it finishes a keep-alive reply.
   */
  lemma {:induction false} WriteLoopUnsent(p: Progress, head: nat, size: nat, linger: bool, results: seq<WriteResult>)
    requires Unsent(p, head, size) && WritesFit(results, p.toSend)
    decreases |results|
    ensures var o := WriteLoop(p, head, linger, results);
      && Unsent(o.sending, head, size)
      && o.sending.haveSent + o.sending.toSend == p.haveSent + p.toSend
      && (p.toSend > 0 && o.sending.toSend <= 0 ==> o.ret == Some(linger) && o.sending.haveSent == head + size)
      && (p.toSend > 0 ==> (o.reset <==> linger && o.sending.toSend <= 0))
  {
    if results != [] {
      match results[0]
      case Wrote(n) =>
        AdvanceUnsent(p, head, size, n);
        var q := Advance(p, head, n);
        if q.toSend <= 0 {
          DoneAllSent(q, head, size);
        } else {
          WriteLoopUnsent(q, head, size, linger, results[1..]);
        }
      case _ =>
    }
  }

  /**
   * The loop of `write()` as the source writes it: `WriteLoop` with each count
   * `writev` reports applied by `AdvanceAsWritten`. Every byte reported is
   * still counted once, and only a finished keep-alive reply resets the
   * connection.
   */
  function WriteLoopAsWritten(p: Progress, head: int, linger: bool, results: seq<WriteResult>): (o: WriteOutcome)
    decreases |results|
    ensures o.sending.haveSent + o.sending.toSend == p.haveSent + p.toSend
    ensures o.reset ==> linger && o.ret == Some(true) && o.sending.toSend <= 0
    ensures p.toSend > 0 ==> (o.reset <==> linger && o.sending.toSend <= 0)
  {
    if results == [] then WriteOutcome(None, p, false)
    else
      match results[0]
      case Again => WriteOutcome(Some(true), p, false)
      case Failed => WriteOutcome(Some(false), p, false)
      case Wrote(n) =>
        var q := AdvanceAsWritten(p, head, n);
        if q.toSend <= 0 then WriteOutcome(Some(linger), q, linger)
        else WriteLoopAsWritten(q, head, linger, results[1..])
  }

  /**
   * The source's loop and the corrected one send alike as long as the head goes
   * out in the first `writev` that writes anything, or is already out: they
   * part only when a later `writev` ends inside the head.
   */
  lemma {:induction false} WriteLoopAgrees(p: Progress, head: nat, size: nat, linger: bool, results: seq<WriteResult>)
    requires Unsent(p, head, size) && WritesFit(results, p.toSend)
    requires p.haveSent >= head || (p.haveSent == 0 && (results == [] || !results[0].Wrote? || results[0].n >= head))
    decreases |results|
    ensures WriteLoopAsWritten(p, head, linger, results) == WriteLoop(p, head, linger, results)
  {
    if results != [] {
      match results[0]
      case Wrote(n) =>
        assert AdvanceAsWritten(p, head, n) == Advance(p, head, n);
        AdvanceUnsent(p, head, size, n);
        var q := Advance(p, head, n);
        if q.toSend > 0 {
          WriteLoopAgrees(q, head, size, linger, results[1..]);
        }
      case _ =>
    }
  }

  class HttpConn {
    /** `m_read_buf` and `m_write_buf`. */
    const readBuf: array<char>
    const writeBuf: array<char>

    /** `m_read_idx`, `m_checked_idx`, `m_start_line` and `m_write_idx`. */
    var readIdx: int
    var checkedIdx: int
    var startLine: int
    var writeIdx: int

    /** `m_check_state` and the request fields the parser fills in; a null `m_url`/`m_host` is empty. */
    var checkState: CheckState
    var requestMethod: Method
    var url: string
    var host: string
    var contentLen: int
    var linger: bool
    var cgi: bool
    /** `m_string`: the body of a request. */
    var body: string
    /** `m_real_file` as the C string it holds, and the `st_size` of `m_file_stat`. */
    var realFile: string
    var fileSize: nat
    /** `m_iv`, `bytes_have_send` and `bytes_to_send`; `m_iv_count`. */
    var sending: Progress
    var ivCount: int

    /** The two buffers have their fixed sizes and are distinct. */
    predicate Sized()
    {
      readBuf.Length == READ_BUFFER_SIZE && writeBuf.Length == WRITE_BUFFER_SIZE && readBuf != writeBuf
    }

    /**
     * What every operation keeps: the indices stay ordered inside the read
     * buffer, the write index below `WRITE_BUFFER_SIZE - 1` (where a successful
     * `add_response` leaves it), and once the request line has been parsed the
     * target starts with `/`.
     */
    predicate Valid()
      reads this`startLine, this`checkedIdx, this`readIdx, this`checkState, this`url, this`writeIdx
    {
      && Sized()
      && 0 <= startLine <= checkedIdx <= readIdx <= READ_BUFFER_SIZE
      && 0 <= writeIdx < WRITE_BUFFER_SIZE - 1
      && (checkState != RequestLineState ==> |url| >= 2 && url[0] == '/')
    }

    /** The state `init()` leaves. */
    predicate Initial()
      reads this, readBuf, writeBuf
    {
      FieldsReset() && Cleared()
    }

    /** The fields `init()` resets; `m_string`, the file's `stat` and `m_iv` are left as they were. */
    predicate FieldsReset()
      reads this
    {
      && sending.toSend == 0 && sending.haveSent == 0
      && checkState == RequestLineState && !linger && requestMethod == GET
      && url == [] && contentLen == 0 && host == []
      && startLine == 0 && checkedIdx == 0 && readIdx == 0 && writeIdx == 0 && !cgi
      && realFile == []
    }

    /** Both buffers hold only NULs. */
    predicate Cleared()
      reads readBuf, writeBuf
    {
      && (forall i :: 0 <= i < readBuf.Length ==> readBuf[i] == '\0')
      && (forall i :: 0 <= i < writeBuf.Length ==> writeBuf[i] == '\0')
    }

    /** An `http_conn` of the server's table, set up by `init()`. */
    constructor ()
      ensures Valid() && Initial()
      ensures fresh(readBuf) && fresh(writeBuf)
    {
      readBuf := new char[READ_BUFFER_SIZE](_ => '\0');
      writeBuf := new char[WRITE_BUFFER_SIZE](_ => '\0');
      body := [];
      fileSize := 0;
      sending := Start(0, 0);
      ivCount := 0;
      new;
      Init();
    }

    /** `init()`: resets the parser, both indices ranges and the byte counts, and clears all buffers. */
    method Init()
      requires Sized()
      modifies this, readBuf, writeBuf
      ensures Valid() && Initial()
      ensures body == old(body) && fileSize == old(fileSize) && ivCount == old(ivCount)
      ensures sending == old(sending).(haveSent := 0, toSend := 0)
    {
      ResetParser();
      ResetWriter();
      Clear(readBuf);
      Clear(writeBuf);
    }

    /** The assignments of `init()` to the request parser's state. */
    method ResetParser()
      modifies this`checkState, this`linger, this`requestMethod, this`url, this`contentLen, this`host
      modifies this`startLine, this`checkedIdx, this`readIdx, this`cgi
      ensures checkState == RequestLineState && !linger && requestMethod == GET && url == [] && contentLen == 0
      ensures host == [] && startLine == 0 && checkedIdx == 0 && readIdx == 0 && !cgi
    {
      checkState := RequestLineState;
      linger := false;
      requestMethod := GET;
      url := [];
      contentLen := 0;
      host := [];
      startLine := 0;
      checkedIdx := 0;
      readIdx := 0;
      cgi := false;
    }

    /** The assignments of `init()` to the reply's state. */
    method ResetWriter()
      modifies this`sending, this`writeIdx, this`realFile
      ensures sending == old(sending).(haveSent := 0, toSend := 0) && writeIdx == 0 && realFile == []
    {
      sending := sending.(haveSent := 0, toSend := 0);
      writeIdx := 0;
      realFile := [];
    }

    /**
     * `read_once` in edge-triggered mode: `recv` is called until it reports
     * `EAGAIN`, the end of the stream or an error, each call appending what fits
     * of the bytes that have arrived, `incoming`, which are followed by `end`. A
     * full buffer fails at once, and a buffer filled by the loop fails too (the
     * next `recv` is asked for no bytes and returns 0). Only running out of
     * bytes with the buffer not full and `EAGAIN` next succeeds.
     */
    method ReadOnce(incoming: seq<char>, end: RecvEnd) returns (ok: bool)
      requires Valid()
      modifies this`readIdx, readBuf
      ensures Valid()
      ensures var n := if |incoming| <= READ_BUFFER_SIZE - old(readIdx) then |incoming| else READ_BUFFER_SIZE - old(readIdx);
        readIdx == old(readIdx) + n
        && readBuf[..] == old(readBuf[..])[..old(readIdx)] + incoming[..n] + old(readBuf[..])[readIdx..]
      ensures ok <==> old(readIdx) + |incoming| < READ_BUFFER_SIZE && end == WouldBlock
    {
      if readIdx >= READ_BUFFER_SIZE {
        assert readBuf[..] == readBuf[..readIdx] + incoming[..0] + readBuf[readIdx..];
        return false;
      }
      var taken := 0;
      while true
        invariant Valid() && 0 <= taken <= |incoming| && readIdx == old(readIdx) + taken
        invariant readBuf[..] == old(readBuf[..])[..old(readIdx)] + incoming[..taken] + old(readBuf[..])[readIdx..]
        invariant taken < |incoming| ==> taken == 0 || readIdx == READ_BUFFER_SIZE
        decreases |incoming| - taken, READ_BUFFER_SIZE - readIdx
      {
        var room := READ_BUFFER_SIZE - readIdx;
        if room == 0 {
          return false;
        }
        if taken == |incoming| {
          return end == WouldBlock;
        }
        var n := if |incoming| - taken <= room then |incoming| - taken else room;
        ghost var before := readBuf[..];
        forall i | 0 <= i < n {
          readBuf[readIdx + i] := incoming[taken + i];
        }
        assert readBuf[..] == before[..readIdx] + incoming[taken..taken + n] + before[readIdx + n..];
        readIdx := readIdx + n;
        taken := taken + n;
      }
    }

    /** `parse_line()`: moves `m_checked_idx` and zeroes the line end as `ParseLineSpec` says. */
    method ParseLine() returns (status: LineStatus)
      requires Valid()
      modifies this`checkedIdx, readBuf
      ensures Valid()
      ensures LineResult(status, checkedIdx, readBuf[..]) == ParseLineSpec(old(readBuf[..]), old(checkedIdx), readIdx)
      ensures status == LineOk ==> checkedIdx > old(checkedIdx)
    {
      status, checkedIdx := ScanLine(readBuf, checkedIdx, readIdx);
    }

    /**
     * `parse_request_line(text)`: a bad line changes nothing here; a good one sets
     * the method and the target, turns CGI on for POST and moves on to the
     * headers.
     */
    method ParseRequestLine(text: string) returns (code: HttpCode)
      requires Valid()
      modifies this`requestMethod, this`cgi, this`url, this`checkState
      ensures Valid()
      ensures var line := HttpParse.ParseRequestLine(text);
        if line.None? then
          code == BadRequest && requestMethod == old(requestMethod) && cgi == old(cgi)
          && url == old(url) && checkState == old(checkState)
        else
          code == NoRequest && requestMethod == line.value.verb && url == line.value.url
          && cgi == (old(cgi) || line.value.verb == POST) && checkState == HeaderState
    {
      match HttpParse.ParseRequestLine(text)
      case None =>
        return BadRequest;
      case Some(line) =>
        requestMethod := line.verb;
        if line.verb == POST {
          cgi := true;
        }
        url := line.url;
        checkState := HeaderState;
        return NoRequest;
    }

    /**
     * `parse_headers(text)`: the empty line ends the head, moving on to the body
     * when one is announced and completing the request otherwise;
     * `Connection: keep-alive` keeps the connection; `Content-length:` and
     * `Host:` are stored; any other line changes nothing.
     */
    method ParseHeaders(text: string) returns (code: HttpCode)
      requires Valid() && checkState == HeaderState
      modifies this`checkState, this`linger, this`contentLen, this`host
      ensures Valid()
      ensures var h := ParseHeader(text);
        && code == (if h.Blank? && contentLen == 0 then GetRequest else NoRequest)
        && checkState == (if h.Blank? && contentLen != 0 then ContentState else HeaderState)
        && linger == (old(linger) || (h.Connection? && h.keepAlive))
        && contentLen == (if h.ContentLength? then h.length else old(contentLen))
        && host == (if h.Host? then h.host else old(host))
    {
      match ParseHeader(text) {
        case Blank =>
          if contentLen != 0 {
            checkState := ContentState;
            return NoRequest;
          }
          return GetRequest;
        case Connection(keepAlive) =>
          if keepAlive {
            linger := true;
          }
        case ContentLength(n) =>
          contentLen := n;
        case Host(h) =>
          host := h;
        case Unknown =>
      }
      return NoRequest;
    }

    /**
     * `parse_content(text)` for the body starting at `start`: once the whole
     * body has arrived its end is zeroed and it is kept as `m_string`. (The
     * source's missing bounds are the finding recorded with `ContentAsWritten`.)
     */
    method ParseContent(start: int) returns (code: HttpCode)
      requires Valid() && 0 <= start <= checkedIdx
      modifies readBuf, this`body
      ensures Valid()
      ensures var c := Content(old(readBuf[..]), start, checkedIdx, readIdx, contentLen);
        if c.Complete? then
          code == GetRequest && body == c.body && readBuf[..] == old(readBuf[..])[start + contentLen := '\0']
        else
          code == NoRequest && body == old(body) && readBuf[..] == old(readBuf[..])
    {
      if 0 <= contentLen && contentLen + checkedIdx <= readIdx && start + contentLen < readBuf.Length {
        readBuf[start + contentLen] := '\0';
        body := CStr(readBuf[..], start);
        return GetRequest;
      }
      return NoRequest;
    }

    /**
     * `do_request()`: routes the target (logging in or registering on the way),
     * names the file in `m_real_file` and classifies it by `stat`, whose size it
     * keeps when the file exists. `None` stands for a form body the credential
     * loops cannot read safely.
     */
    method DoRequest(users: map<string, string>, fs: map<string, FileStat>, insertFails: bool)
      returns (r: Option<HttpCode>, users': map<string, string>)
      requires Valid() && checkState != RequestLineState
      modifies this`url, this`realFile, this`fileSize
      ensures Valid()
      ensures var rt := Route(old(url), cgi, body, users, insertFails);
        if rt.None? then
          r.None? && users' == users && url == old(url) && realFile == old(realFile) && fileSize == old(fileSize)
        else
          && r == Some(StatCode(fs, rt.value.file)) && users' == rt.value.users
          && url == rt.value.url && realFile == rt.value.file
          && fileSize == (if realFile in fs then fs[realFile].size else old(fileSize))
    {
      var rt := Route(url, cgi, body, users, insertFails);
      if rt.None? {
        return None, users;
      }
      url := rt.value.url;
      realFile := rt.value.file;
      users' := rt.value.users;
      if realFile in fs {
        fileSize := fs[realFile].size;
      }
      r := Some(StatCode(fs, realFile));
    }

    /**
     * `process_read()`: takes complete lines from the read buffer and hands each
     * to the parser of the current state until a line is missing, the request
     * line is bad, or the request is complete and `do_request` answers it. The
     * parser never goes back a state; asking for more data means no complete
     * line is left; any other answer is a bad request line or `do_request`'s
     * verdict on the file it named.
     */
    method ProcessRead(users: map<string, string>, fs: map<string, FileStat>, insertFails: bool)
      returns (r: Option<HttpCode>, users': map<string, string>)
      requires Valid()
      modifies this`checkedIdx, this`startLine, readBuf, this`requestMethod, this`cgi, this`url, this`checkState
      modifies this`linger, this`contentLen, this`host, this`body, this`realFile, this`fileSize
      ensures Valid() && readIdx == old(readIdx) && old(checkedIdx) <= checkedIdx
      ensures old(checkState) != RequestLineState ==> checkState != RequestLineState
      ensures old(checkState) == ContentState ==> checkState == ContentState
      ensures r == Some(NoRequest) ==> ParseLineSpec(readBuf[..], checkedIdx, readIdx).status != LineOk
      ensures r.Some? && r.value != NoRequest ==>
        (checkState == RequestLineState && r.value == BadRequest) ||
        (checkState != RequestLineState && r.value == StatCode(fs, realFile))
      ensures users.Keys <= users'.Keys && forall n :: n in users ==> users'[n] == users[n]
    {
      var lineStatus := LineOk;
      while true
        invariant Valid() && readIdx == old(readIdx) && old(checkedIdx) <= checkedIdx
        invariant old(checkState) != RequestLineState ==> checkState != RequestLineState
        invariant old(checkState) == ContentState ==> checkState == ContentState
        decreases 2 * (readIdx - checkedIdx) + if checkState == ContentState && lineStatus == LineOk then 1 else 0
      {
        if !(checkState == ContentState && lineStatus == LineOk) {
          ghost var buf, checked := readBuf[..], checkedIdx;
          lineStatus := ParseLine();
          if lineStatus != LineOk {
            ParseLineStable(buf, checked, readIdx);
            return Some(NoRequest), users;
          }
        }
        var inContent := checkState == ContentState;
        var stop;
        stop, r, users' := ProcessLine(users, fs, insertFails);
        if stop {
          return;
        }
        if inContent {
          lineStatus := LineOpen;
        }
      }
    }

    /**
     * How a turn of `process_read()` ends: going on changes no user; stopping
     * is never a request for more data, and it is either a bad request line or
     * `do_request`'s verdict on the file it named. No user is removed or
     * changed either way.
     */
    predicate Answered(stop: bool, r: Option<HttpCode>, fs: map<string, FileStat>, users: map<string, string>, users': map<string, string>)
      reads this`checkState, this`realFile
    {
      && (!stop ==> users' == users)
      && (stop ==> r != Some(NoRequest))
      && (stop && r.Some? ==>
            (checkState == RequestLineState && r.value == BadRequest) ||
            (checkState != RequestLineState && r.value == StatCode(fs, realFile)))
      && users.Keys <= users'.Keys && (forall n :: n in users ==> users'[n] == users[n])
    }

    /**
     * One turn of the loop of `process_read()` once a line is complete: the
     * line at `m_start_line` goes to the parser of the current state, and the
     * loop stops on a bad request line or a complete request.
     */
    method ProcessLine(users: map<string, string>, fs: map<string, FileStat>, insertFails: bool)
      returns (stop: bool, r: Option<HttpCode>, users': map<string, string>)
      requires Valid()
      modifies this`startLine, readBuf, this`requestMethod, this`cgi, this`url, this`checkState
      modifies this`linger, this`contentLen, this`host, this`body, this`realFile, this`fileSize
      ensures Valid() && startLine == checkedIdx
      ensures old(checkState) != RequestLineState ==> checkState != RequestLineState
      ensures old(checkState) == ContentState ==> checkState == ContentState
      ensures Answered(stop, r, fs, users, users')
    {
      var lineStart := startLine;
      var text := CStr(readBuf[..], startLine);
      startLine := checkedIdx;
      match checkState
      case RequestLineState =>
        var ret := ParseRequestLine(text);
        return ret == BadRequest, Some(BadRequest), users;
      case HeaderState =>
        stop, r, users' := HeaderLine(text, users, fs, insertFails);
      case ContentState =>
        stop, r, users' := ContentLine(lineStart, users, fs, insertFails);
    }

    /** A header line: the request is answered once the head ends without a body. */
    method HeaderLine(text: string, users: map<string, string>, fs: map<string, FileStat>, insertFails: bool)
      returns (stop: bool, r: Option<HttpCode>, users': map<string, string>)
      requires Valid() && checkState == HeaderState
      modifies this`checkState, this`linger, this`contentLen, this`host, this`url, this`realFile, this`fileSize
      ensures Valid() && checkState != RequestLineState
      ensures Answered(stop, r, fs, users, users')
    {
      var ret := ParseHeaders(text);
      if ret == GetRequest {
        r, users' := DoRequest(users, fs, insertFails);
        return true, r, users';
      }
      return false, None, users;
    }

    /** A turn in the body: the request is answered once the whole body has arrived. */
    method ContentLine(lineStart: int, users: map<string, string>, fs: map<string, FileStat>, insertFails: bool)
      returns (stop: bool, r: Option<HttpCode>, users': map<string, string>)
      requires Valid() && checkState == ContentState && 0 <= lineStart <= checkedIdx
      modifies readBuf, this`body, this`url, this`realFile, this`fileSize
      ensures Valid()
      ensures Answered(stop, r, fs, users, users')
    {
      var ret := ParseContent(lineStart);
      if ret == GetRequest {
        r, users' := DoRequest(users, fs, insertFails);
        return true, r, users';
      }
      return false, None, users;
    }

    /** `add_response` of the formatted `text`. */
    method AddResponse(text: string) returns (ok: bool)
      requires Sized() && 0 <= writeIdx
      modifies this`writeIdx, writeBuf
      ensures Appended(ok, writeBuf[..], writeIdx) == AddResponseSpec(old(writeBuf[..]), old(writeIdx), text)
    {
      if writeIdx >= WRITE_BUFFER_SIZE {
        return false;
      }
      var size := WRITE_BUFFER_SIZE - 1 - writeIdx;
      if size > 0 {
        Print(writeBuf, writeIdx, text, size);
      }
      if |text| >= size {
        return false;
      }
      writeIdx := writeIdx + |text|;
      return true;
    }

    /** `add_status_line(status, title)`. */
    method AddStatusLine(status: int, title: string) returns (ok: bool)
      requires Sized() && 0 <= writeIdx
      modifies this`writeIdx, writeBuf
      ensures old(writeIdx) < WRITE_BUFFER_SIZE - 1 ==> writeIdx < WRITE_BUFFER_SIZE - 1
      ensures Appended(ok, writeBuf[..], writeIdx) == AddResponseSpec(old(writeBuf[..]), old(writeIdx), StatusLine(status, title))
    {
      ok := AddResponse(StatusLine(status, title));
    }

    /** `add_content_length(length)`. */
    method AddContentLength(length: int) returns (ok: bool)
      requires Sized() && 0 <= writeIdx
      modifies this`writeIdx, writeBuf
      ensures Appended(ok, writeBuf[..], writeIdx) == AddResponseSpec(old(writeBuf[..]), old(writeIdx), ContentLengthLine(length))
    {
      ok := AddResponse(ContentLengthLine(length));
    }

    /** `add_content_type()`. */
    method AddContentType() returns (ok: bool)
      requires Sized() && 0 <= writeIdx
      modifies this`writeIdx, writeBuf
      ensures Appended(ok, writeBuf[..], writeIdx) == AddResponseSpec(old(writeBuf[..]), old(writeIdx), CONTENT_TYPE_LINE)
    {
      ok := AddResponse(CONTENT_TYPE_LINE);
    }

    /** `add_linger()`. */
    method AddLinger() returns (ok: bool)
      requires Sized() && 0 <= writeIdx
      modifies this`writeIdx, writeBuf
      ensures Appended(ok, writeBuf[..], writeIdx) == AddResponseSpec(old(writeBuf[..]), old(writeIdx), LingerLine(linger))
    {
      ok := AddResponse(LingerLine(linger));
    }

    /** `add_blank_line()`. */
    method AddBlankLine() returns (ok: bool)
      requires Sized() && 0 <= writeIdx
      modifies this`writeIdx, writeBuf
      ensures Appended(ok, writeBuf[..], writeIdx) == AddResponseSpec(old(writeBuf[..]), old(writeIdx), BLANK_LINE)
    {
      ok := AddResponse(BLANK_LINE);
    }

    /** `add_content(content)`. */
    method AddContent(content: string) returns (ok: bool)
      requires Sized() && 0 <= writeIdx
      modifies this`writeIdx, writeBuf
      ensures Appended(ok, writeBuf[..], writeIdx) == AddResponseSpec(old(writeBuf[..]), old(writeIdx), content)
    {
      ok := AddResponse(content);
    }

    /** `add_headers(length)`: the length, the connection line and the blank line, whatever each returns; it reports nothing. */
    method AddHeaders(length: int)
      requires Sized() && 0 <= writeIdx
      modifies this`writeIdx, writeBuf
      ensures old(writeIdx) < WRITE_BUFFER_SIZE - 1 ==> writeIdx < WRITE_BUFFER_SIZE - 1
      ensures var a := AddEach(old(writeBuf[..]), old(writeIdx), [ContentLengthLine(length), LingerLine(linger), BLANK_LINE]);
        writeBuf[..] == a.buf && writeIdx == a.idx
    {
      ghost var b0, i0 := writeBuf[..], writeIdx;
      var _ := AddContentLength(length);
      ghost var b1, i1 := writeBuf[..], writeIdx;
      var _ := AddLinger();
      var _ := AddBlankLine();
      AddEachCons(b0, i0, ContentLengthLine(length), [LingerLine(linger), BLANK_LINE]);
      AddEachCons(b1, i1, LingerLine(linger), [BLANK_LINE]);
    }

    /** The status line, the head and a body, with the result of adding the body. */
    method AddReply(status: int, title: string, form: string) returns (ok: bool)
      requires Sized() && 0 <= writeIdx
      modifies this`writeIdx, writeBuf
      ensures old(writeIdx) < WRITE_BUFFER_SIZE - 1 ==> writeIdx < WRITE_BUFFER_SIZE - 1
      ensures var a := AddEach(old(writeBuf[..]), old(writeIdx), HeadParts(status, title, |form|, linger) + [form]);
        writeBuf[..] == a.buf && writeIdx == a.idx && ok == a.ok
    {
      ghost var b0, i0 := writeBuf[..], writeIdx;
      var _ := AddStatusLine(status, title);
      ghost var b1, i1 := writeBuf[..], writeIdx;
      AddHeaders(|form|);
      ok := AddContent(form);
      var rest := [ContentLengthLine(|form|), LingerLine(linger), BLANK_LINE];
      assert HeadParts(status, title, |form|, linger) + [form] == [StatusLine(status, title)] + (rest + [form]);
      AddEachCons(b0, i0, StatusLine(status, title), rest + [form]);
      AddEachAppend(b1, i1, rest, [form]);
    }

    /**
     * `process_write(ret)`: composes the reply for `ret` in the write buffer.
     * An error reply is then sent from the buffer alone, a non-empty file as a
     * second `iovec` after the head. The result is false when the body line did
     * not fit, and, because the empty-file case falls through to `default`, for
     * an empty file too.
     */
    method ProcessWrite(ret: HttpCode) returns (ok: bool)
      requires Valid()
      modifies this`writeIdx, writeBuf, this`sending, this`ivCount
      ensures Valid()
      ensures var a := AddEach(old(writeBuf[..]), old(writeIdx), ReplyParts(ret, linger, fileSize));
        writeBuf[..] == a.buf && writeIdx == a.idx
      ensures var a := AddEach(old(writeBuf[..]), old(writeIdx), ReplyParts(ret, linger, fileSize));
        ok == ((ret in {InternalError, BadRequest, ForbiddenRequest} && a.ok) || (ret == FileRequest && fileSize != 0))
      ensures ok && ret == FileRequest ==>
        ivCount == 2 && sending == Progress(0, writeIdx, 0, fileSize, old(sending.haveSent), writeIdx + fileSize)
      ensures ok && ret != FileRequest ==>
        ivCount == 1 && sending == old(sending).(base0 := 0, len0 := writeIdx, toSend := writeIdx)
      ensures !ok ==> sending == old(sending) && ivCount == old(ivCount)
      ensures ok && old(sending.haveSent) == 0 ==> Unsent(sending, writeIdx, if ivCount == 2 then fileSize else 0)
    {
      if ret == InternalError {
        ok := ErrorReply(500, ERROR_500_TITLE, ERROR_500_FORM);
      } else if ret == BadRequest {
        ok := ErrorReply(404, ERROR_404_TITLE, ERROR_404_FORM);
      } else if ret == ForbiddenRequest {
        ok := ErrorReply(403, ERROR_403_TITLE, ERROR_403_FORM);
      } else if ret == FileRequest {
        ok := FileReply();
      } else {
        ok := false;
      }
    }

    /** An error reply of `process_write`, sent from the write buffer alone when its body fit. */
    method ErrorReply(status: int, title: string, form: string) returns (ok: bool)
      requires Valid()
      modifies this`writeIdx, writeBuf, this`sending, this`ivCount
      ensures Valid()
      ensures var a := AddEach(old(writeBuf[..]), old(writeIdx), HeadParts(status, title, |form|, linger) + [form]);
        writeBuf[..] == a.buf && writeIdx == a.idx && ok == a.ok
      ensures ok ==> ivCount == 1 && sending == old(sending).(base0 := 0, len0 := writeIdx, toSend := writeIdx)
      ensures !ok ==> sending == old(sending) && ivCount == old(ivCount)
    {
      ok := AddReply(status, title, form);
      if ok {
        sending := sending.(base0 := 0, len0 := writeIdx, toSend := writeIdx);
        ivCount := 1;
      }
    }

    /**
     * The FILE_REQUEST case of `process_write`: a non-empty file goes out as
     * the second `iovec`; an empty file gets the empty page, and the result is
     * false because the case falls through to `default`.
     */
    method FileReply() returns (ok: bool)
      requires Valid()
      modifies this`writeIdx, writeBuf, this`sending, this`ivCount
      ensures Valid()
      ensures var a := AddEach(old(writeBuf[..]), old(writeIdx), ReplyParts(FileRequest, linger, fileSize));
        writeBuf[..] == a.buf && writeIdx == a.idx
      ensures ok == (fileSize != 0)
      ensures ok ==> ivCount == 2 && sending == Progress(0, writeIdx, 0, fileSize, old(sending.haveSent), writeIdx + fileSize)
      ensures !ok ==> sending == old(sending) && ivCount == old(ivCount)
    {
      if fileSize == 0 {
        var _ := AddReply(200, OK_200_TITLE, OK_STRING);
        FileParts(linger, fileSize);
        return false;
      }
      var length := ToInt32(fileSize);
      FileHead(length);
      FileParts(linger, fileSize);
      sending := sending.(base0 := 0, len0 := writeIdx, base1 := 0, len1 := fileSize, toSend := writeIdx + fileSize);
      ivCount := 2;
      return true;
    }

    /** The status line and the head of a reply carrying a file of `length` bytes. */
    method FileHead(length: int)
      requires Sized() && 0 <= writeIdx
      modifies this`writeIdx, writeBuf
      ensures old(writeIdx) < WRITE_BUFFER_SIZE - 1 ==> writeIdx < WRITE_BUFFER_SIZE - 1
      ensures var a := AddEach(old(writeBuf[..]), old(writeIdx), HeadParts(200, OK_200_TITLE, length, linger));
        writeBuf[..] == a.buf && writeIdx == a.idx
    {
      ghost var b0, i0 := writeBuf[..], writeIdx;
      var _ := AddStatusLine(200, OK_200_TITLE);
      AddHeaders(length);
      AddEachCons(b0, i0, StatusLine(200, OK_200_TITLE), [ContentLengthLine(length), LingerLine(linger), BLANK_LINE]);
    }

    /**
     * `write()` with the results `writev` reports, in order. Nothing left to
     * send resets the connection at once; otherwise the `iovec`s move on as the
     * source moves them (`WriteLoopAsWritten`), and a finished keep-alive reply
     * resets the connection. Nothing else of the connection changes.
     */
    method Write(results: seq<WriteResult>) returns (r: Option<bool>)
      requires Valid()
      modifies this, readBuf, writeBuf
      ensures Valid()
      ensures body == old(body) && fileSize == old(fileSize) && ivCount == old(ivCount)
      ensures old(sending.toSend) == 0 ==>
        r == Some(true) && Initial() && sending == old(sending).(haveSent := 0, toSend := 0)
      ensures old(sending.toSend) != 0 ==>
        var o := WriteLoopAsWritten(old(sending), old(writeIdx), old(linger), results);
        && r == o.ret
        && (o.reset ==> Initial() && sending == o.sending.(haveSent := 0, toSend := 0))
        && (!o.reset ==>
              && sending == o.sending && writeIdx == old(writeIdx) && writeBuf[..] == old(writeBuf[..])
              && readIdx == old(readIdx) && checkedIdx == old(checkedIdx) && startLine == old(startLine)
              && readBuf[..] == old(readBuf[..])
              && checkState == old(checkState) && linger == old(linger) && requestMethod == old(requestMethod)
              && url == old(url) && host == old(host) && contentLen == old(contentLen) && cgi == old(cgi)
              && realFile == old(realFile))
    {
      if sending.toSend == 0 {
        Init();
        return Some(true);
      }
      ghost var o := WriteLoopAsWritten(sending, writeIdx, linger, results);
      var i := 0;
      var reset := false;
      while true
        modifies this`sending
        invariant 0 <= i <= |results|
        invariant WriteLoopAsWritten(sending, writeIdx, linger, results[i..]) == o
        decreases |results| - i
      {
        if i == |results| {
          r := None;
          break;
        }
        assert results[i..][0] == results[i] && results[i..][1..] == results[i + 1..];
        match results[i]
        case Again =>
          r := Some(true);
          break;
        case Failed =>
          r := Some(false);
          break;
        case Wrote(n) =>
          sending := AdvanceAsWritten(sending, writeIdx, n);
          i := i + 1;
          if sending.toSend <= 0 {
            r, reset := Some(linger), linger;
            break;
          }
      }
      if reset {
        Init();
      }
    }
  }
}
