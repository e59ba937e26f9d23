/**
 * The request side of `http_conn` as values: its constants and enumerations,
 * the line scanner `parse_line` over the read buffer, and what
 * `parse_request_line`, `parse_headers` and `parse_content` make of one line of
 * text. The connection class applies these to its fields.
 */
module HttpParse {
  import opened Wrappers
  import opened CString

  const FILENAME_LEN: int := 200
  const READ_BUFFER_SIZE: int := 2048
  const WRITE_BUFFER_SIZE: int := 1024

  /** `METHOD`; only GET and POST are ever produced. */
  datatype Method = GET | POST | HEAD | PUT | DELETE | TRACE | OPTIONS | CONNECT | PATH

  /** `CHECK_STATE`: the state of the request parser. */
  datatype CheckState = RequestLineState | HeaderState | ContentState

  /** `HTTP_CODE`. */
  datatype HttpCode =
    | NoRequest | GetRequest | BadRequest | NoResource
    | ForbiddenRequest | FileRequest | InternalError | ClosedConnection

  /** `LINE_STATUS`. */
  datatype LineStatus = LineOk | LineBad | LineOpen

  // ---------------------------------------------------------------------------
  // parse_line
  // ---------------------------------------------------------------------------

  predicate IsTerm(c: char) { c == '\r' || c == '\n' }

  /** The first CR or LF in `buf[i..read]`, or `read` when there is none (`i` when `i >= read`). */
  function FirstTerm(buf: seq<char>, i: int, read: int): (j: int)
    requires 0 <= i && read <= |buf|
    decreases read - i
    ensures i >= read ==> j == i
    ensures i < read ==> i <= j <= read
    ensures forall k :: i <= k < j ==> !IsTerm(buf[k])
    ensures j < read ==> IsTerm(buf[j])
  {
    if i >= read || IsTerm(buf[i]) then i else FirstTerm(buf, i + 1, read)
  }

  /** What `parse_line` returns, where it leaves `m_checked_idx` and the buffer it leaves. */
  datatype LineResult = LineResult(status: LineStatus, checked: int, buf: seq<char>)

  /**
   * `parse_line` on the buffer `buf` with `m_checked_idx == checked` and
   * `m_read_idx == read`: the first CR or LF from `checked` on decides. A CR LF
   * pair, or an LF right after a CR at an index above 0, ends a line; both bytes
   * become NUL and scanning resumes after them. A CR in the last byte read leaves
   * the line open on the CR; any other CR or LF is a bad line.
   */
  function ParseLineSpec(buf: seq<char>, checked: int, read: int): (r: LineResult)
    requires 0 <= checked && read <= |buf|
    ensures |r.buf| == |buf|
    ensures checked <= r.checked
    ensures checked < read ==> r.checked <= read
    ensures r.status == LineOk ==> r.checked > checked
  {
    var j := FirstTerm(buf, checked, read);
    if j >= read then LineResult(LineOpen, j, buf)
    else if buf[j] == '\r' then
      if j + 1 == read then LineResult(LineOpen, j, buf)
      else if buf[j + 1] == '\n' then LineResult(LineOk, j + 2, buf[j := '\0'][j + 1 := '\0'])
      else LineResult(LineBad, j, buf)
    else if j > 1 && buf[j - 1] == '\r' then LineResult(LineOk, j + 1, buf[j - 1 := '\0'][j := '\0'])
    else LineResult(LineBad, j, buf)
  }

  /**
   * `parse_line` never looks at or writes to a byte at or beyond `m_read_idx`:
   * two buffers that agree below `read` give the same status and index, and
   * the bytes from `read` on come back unchanged.
   */
  lemma ParseLineLocal(buf: seq<char>, buf2: seq<char>, checked: int, read: int)
    requires 0 <= checked && 0 <= read <= |buf| && read <= |buf2|
    requires buf[..read] == buf2[..read]
    ensures var r, r2 := ParseLineSpec(buf, checked, read), ParseLineSpec(buf2, checked, read);
      r.status == r2.status && r.checked == r2.checked && r.buf[..read] == r2.buf[..read]
    ensures ParseLineSpec(buf, checked, read).buf[read..] == buf[read..]
  {
    FirstTermLocal(buf, buf2, checked, read);
    var j := FirstTerm(buf, checked, read);
    if j < read {
      assert buf[j] == buf[..read][j];
      if j + 1 < read {
        assert buf[j + 1] == buf[..read][j + 1];
      }
      if j > 1 {
        assert buf[j - 1] == buf[..read][j - 1];
      }
    }
  }

  lemma {:induction false} FirstTermLocal(buf: seq<char>, buf2: seq<char>, i: int, read: int)
    requires 0 <= i && 0 <= read <= |buf| && read <= |buf2|
    requires buf[..read] == buf2[..read]
    decreases read - i
    ensures FirstTerm(buf, i, read) == FirstTerm(buf2, i, read)
  {
    if i < read {
      assert buf[i] == buf[..read][i] && buf2[i] == buf2[..read][i];
      if !IsTerm(buf[i]) {
        FirstTermLocal(buf, buf2, i + 1, read);
      }
    }
  }

  /**
   * `parse_line` reports an open line exactly when no CR or LF is left to
   * scan, leaving the index at `read`, or the first one is a CR in the last
   * byte read, leaving the index on that CR. The buffer is then unchanged.
   */
  lemma ParseLineOpen(buf: seq<char>, checked: int, read: int)
    requires 0 <= checked < read <= |buf|
    ensures var r := ParseLineSpec(buf, checked, read);
      r.status == LineOpen <==>
        ((forall k :: checked <= k < read ==> !IsTerm(buf[k])) && r.checked == read)
        || ((forall k :: checked <= k < read - 1 ==> !IsTerm(buf[k])) && buf[read - 1] == '\r' && r.checked == read - 1)
    ensures ParseLineSpec(buf, checked, read).status == LineOpen ==> ParseLineSpec(buf, checked, read).buf == buf
  {
    var j := FirstTerm(buf, checked, read);
    if j < read - 1 {
      assert IsTerm(buf[j]);
    } else if j == read - 1 {
      assert IsTerm(buf[j]);
    }
  }

  /**
   * A complete line: after `LINE_OK` the C string that starts at `start` (the
   * line `get_line` hands out) is the text between `start` and the line's CR,
   * as long as that text holds no NUL of its own.
   */
  lemma ParseLineOkText(buf: seq<char>, start: int, checked: int, read: int)
    requires 0 <= start <= checked && read <= |buf|
    requires ParseLineSpec(buf, checked, read).status == LineOk
    ensures var r := ParseLineSpec(buf, checked, read);
      var e := r.checked - 2;
      start <= e ==> (forall k :: start <= k < e ==> buf[k] != '\0') ==> CStr(r.buf, start) == buf[start..e]
  {
    var r := ParseLineSpec(buf, checked, read);
    var e := r.checked - 2;
    if start <= e && forall k :: start <= k < e ==> buf[k] != '\0' {
      assert r.buf[e] == '\0';
      assert forall k :: start <= k < e ==> r.buf[k] == buf[k];
      CStrUpTo(r.buf, start, e);
      assert r.buf[start..e] == buf[start..e];
    }
  }

  /** The C string at `i` runs to the first NUL at or after `i`. */
  lemma {:induction false} CStrUpTo(buf: seq<char>, i: int, e: int)
    requires 0 <= i <= e < |buf| && buf[e] == '\0'
    requires forall k :: i <= k < e ==> buf[k] != '\0'
    decreases e - i
    ensures CStr(buf, i) == buf[i..e]
  {
    if i < e {
      CStrUpTo(buf, i + 1, e);
      assert buf[i..e] == [buf[i]] + buf[i + 1..e];
    }
  }

  /**
   * How the first CR or LF from `checked` decides: a CR followed by an LF, or an
   * LF after a CR above index 1, is a complete line; the index moves past the
   * pair and exactly those two bytes become NUL. A CR in the last byte read
   * leaves the line open; any other CR or LF is a bad line, with the index left
   * on it and the buffer unchanged.
   */
  lemma ParseLineDecides(buf: seq<char>, checked: int, read: int)
    requires 0 <= checked < read <= |buf|
    ensures var j, r := FirstTerm(buf, checked, read), ParseLineSpec(buf, checked, read);
      && (r.status == LineOk <==>
            j < read && ((buf[j] == '\r' && j + 1 < read && buf[j + 1] == '\n') || (buf[j] == '\n' && j > 1 && buf[j - 1] == '\r')))
      && (r.status == LineOk ==>
            && r.checked == (if buf[j] == '\r' then j + 2 else j + 1)
            && 2 <= r.checked <= read
            && r.buf == buf[r.checked - 2 := '\0'][r.checked - 1 := '\0'])
      && (r.status == LineBad <==> j < read && r.status != LineOk && !(buf[j] == '\r' && j + 1 == read))
      && (r.status == LineBad ==> r.checked == j && r.buf == buf)
  {
  }

  /**
   * Calling `parse_line` again after an open or bad line changes nothing: the
   * scanner is left on the byte that decided, so it decides the same way again.
   */
  lemma ParseLineStable(buf: seq<char>, checked: int, read: int)
    requires 0 <= checked && read <= |buf|
    requires ParseLineSpec(buf, checked, read).status != LineOk
    ensures var r := ParseLineSpec(buf, checked, read);
      ParseLineSpec(r.buf, r.checked, read) == r
  {
    var r := ParseLineSpec(buf, checked, read);
    var j := FirstTerm(buf, checked, read);
    assert r.buf == buf;
    assert r.checked == j;
    if j < read {
      assert FirstTerm(buf, j, read) == j;
    }
  }

  // ---------------------------------------------------------------------------
  // parse_request_line
  // ---------------------------------------------------------------------------

  /** The request line as `parse_request_line` keeps it: the method and the target `m_url`. */
  datatype RequestLine = RequestLine(verb: Method, url: string)

  /** The target after normalisation as the source writes it. */
  datatype TargetResult = TargetBad | TargetNullDeref | TargetOk(url: string)

  /**
   * The target normalisation as the source writes it: an `http://` prefix is
   * cut to the first `/` after it, then likewise an `https://` prefix. When an
   * `http://` target has no `/` left, `strchr` gives a null `m_url`, which the
   * next `strncasecmp` dereferences (`TargetNullDeref`).
   */
  function TargetAsWritten(t: string): (r: TargetResult)
  {
    var t1 := if StartsWithCI(t, "http://") then FromChar(t[7..], '/') else Some(t);
    if t1.None? then TargetNullDeref
    else
      var t2 := if StartsWithCI(t1.value, "https://") then FromChar(t1.value[8..], '/') else t1;
      if t2.None? || t2.value == [] || t2.value[0] != '/' then TargetBad
      else if |t2.value| == 1 then TargetOk("/index.html")
      else TargetOk(t2.value)
  }

  /** `GET http://x HTTP/1.1` reaches the null dereference. */
  lemma TargetNullDerefExample()
    ensures TargetAsWritten("http://x") == TargetNullDeref
  {
    assert StartsWithCI("http://x", "http://");
    assert "http://x"[7..] == "x";
  }

  /**
   * The target normalisation with the null target rejected as BAD_REQUEST
   * (`None`), as the later `!m_url` test intends.
   */
  function Target(t: string): (r: Option<string>)
    ensures r.Some? ==> |r.value| >= 2 && r.value[0] == '/'
  {
    var t1 := if StartsWithCI(t, "http://") then FromChar(t[7..], '/') else Some(t);
    var t2 := if t1.Some? && StartsWithCI(t1.value, "https://") then FromChar(t1.value[8..], '/') else t1;
    if t2.None? || t2.value == [] || t2.value[0] != '/' then None
    else if |t2.value| == 1 then Some("/index.html")
    else Some(t2.value)
  }

  /** Wherever the source does not dereference null, the corrected normalisation agrees with it. */
  lemma TargetAgrees(t: string)
    ensures TargetAsWritten(t) != TargetNullDeref ==>
      (Target(t).None? <==> TargetAsWritten(t) == TargetBad)
      && (Target(t).Some? ==> TargetAsWritten(t) == TargetOk(Target(t).value))
    ensures TargetAsWritten(t) == TargetNullDeref ==> Target(t).None?
  {
  }

  /**
   * An `http://` or `https://` prefix, in any case, is cut to the first `/`
   * after it, and a target without one is refused; `/` alone then becomes
   * `/index.html`. A target with neither prefix must itself start with `/`.
   */
  lemma TargetSchemes(t: string)
    ensures StartsWithCI(t, "http://") ==>
      (Target(t) == match FromChar(t[7..], '/') {
        case None => None
        case Some(u) => Some(if |u| == 1 then "/index.html" else u)
      })
    ensures StartsWithCI(t, "https://") ==>
      (Target(t) == match FromChar(t[8..], '/') {
        case None => None
        case Some(u) => Some(if |u| == 1 then "/index.html" else u)
      })
    ensures !StartsWithCI(t, "http://") && !StartsWithCI(t, "https://") && (t == [] || t[0] != '/') ==> Target(t).None?
  {
    if StartsWithCI(t, "http://") {
      match FromChar(t[7..], '/')
      case None =>
      case Some(u) =>
        assert u[0] == '/';
        assert !StartsWithCI(u, "https://") by { assert Lower(u[0]) != Lower('h'); }
    }
    if StartsWithCI(t, "https://") {
      assert !StartsWithCI(t, "http://") by {
        assert Lower(t[..8][4]) == Lower("https://"[4]);
        assert t[..8][4] == t[..7][4];
      }
    }
  }

  /** A target that already begins with `/` is kept, except that `/` alone becomes `/index.html`. */
  lemma TargetPath(t: string)
    requires t != [] && t[0] == '/'
    ensures Target(t) == Some(if |t| == 1 then "/index.html" else t)
  {
    assert !StartsWithCI(t, "http://") by { assert Lower(t[0]) != Lower('h'); }
    assert !StartsWithCI(t, "https://") by { assert Lower(t[0]) != Lower('h'); }
  }

  /** The only HTTP version `parse_request_line` accepts, ignoring case. */
  const VERSION: string := "HTTP/1.1"

  /**
   * The three fields of a request line, before the target is normalised: the
   * method, up to the first blank, must be GET or POST ignoring case; the target
   * runs from the next non-blank to the next blank; and the rest, after blanks,
   * must be `HTTP/1.1` ignoring case.
   */
  function SplitRequestLine(text: string): (r: Option<RequestLine>)
    ensures r.Some? ==> (r.value.verb == GET || r.value.verb == POST)
  {
    match FindBlank(text, 0)
    case None => None
    case Some(b) =>
      var m := text[..b];
      if !EqualCI(m, "GET") && !EqualCI(m, "POST") then None
      else
        var verb := if EqualCI(m, "GET") then GET else POST;
        var u := SkipBlanks(text, b + 1);
        match FindBlank(text, u)
        case None => None
        case Some(v) =>
          var w := SkipBlanks(text, v + 1);
          if !EqualCI(text[w..], VERSION) then None
          else Some(RequestLine(verb, text[u..v]))
  }

  /** `parse_request_line(text)` on the text of one line; `None` is BAD_REQUEST. */
  function ParseRequestLine(text: string): (r: Option<RequestLine>)
    ensures r.Some? ==> (r.value.verb == GET || r.value.verb == POST)
    ensures r.Some? ==> |r.value.url| >= 2 && r.value.url[0] == '/'
  {
    match SplitRequestLine(text)
    case None => None
    case Some(line) =>
      match Target(line.url)
      case None => None
      case Some(url) => Some(RequestLine(line.verb, url))
  }

  /**
   * Every other request line is refused: one without a blank, one whose method
   * is neither GET nor POST (the method field decides which of the two is
   * kept), and one that does not end, after a blank, in `HTTP/1.1`.
   */
  lemma ParseRequestLineRejects(text: string)
    ensures FindBlank(text, 0).None? ==> ParseRequestLine(text).None?
    ensures (FindBlank(text, 0).Some? && !EqualCI(text[..FindBlank(text, 0).value], "GET")
        && !EqualCI(text[..FindBlank(text, 0).value], "POST")) ==> ParseRequestLine(text).None?
    ensures ParseRequestLine(text).Some? ==>
      (FindBlank(text, 0).Some? &&
        var m := text[..FindBlank(text, 0).value];
        (ParseRequestLine(text).value.verb == GET <==> EqualCI(m, "GET"))
        && (ParseRequestLine(text).value.verb == POST <==> EqualCI(m, "POST")))
    ensures ParseRequestLine(text).Some? ==>
      exists w :: 0 < w <= |text| && IsBlank(text[w - 1]) && EqualCI(text[w..], VERSION)
  {
    if ParseRequestLine(text).Some? {
      var b := FindBlank(text, 0).value;
      var u := SkipBlanks(text, b + 1);
      var v := FindBlank(text, u).value;
      var w := SkipBlanks(text, v + 1);
      assert IsBlank(text[w - 1]);
      assert EqualCI(text[w..], VERSION);
    }
  }

  predicate NoBlank(s: string) { forall k :: 0 <= k < |s| ==> !IsBlank(s[k]) }

  /** GET or POST in any case has no blank in it. */
  lemma MethodNoBlank(m: string)
    requires EqualCI(m, "GET") || EqualCI(m, "POST")
    ensures NoBlank(m)
  {
    forall k | 0 <= k < |m| ensures !IsBlank(m[k]) {
      if EqualCI(m, "GET") { assert Lower(m[k]) == Lower("GET"[k]); }
      else { assert Lower(m[k]) == Lower("POST"[k]); }
    }
  }

  /**
   * A well-formed request line is accepted with its method and normalised
   * target: `m` (GET or POST in any case), one blank, a target without blanks,
   * one blank and `HTTP/1.1`. It is refused exactly when its target is.
   */
  lemma ParseRequestLineAccepts(m: string, t: string)
    requires EqualCI(m, "GET") || EqualCI(m, "POST")
    requires NoBlank(t)
    ensures ParseRequestLine(m + " " + t + " " + VERSION) ==
        if t == [] || Target(t).None? then None
        else Some(RequestLine(if EqualCI(m, "GET") then GET else POST, Target(t).value))
  {
    if t == [] {
      SplitEmptyTarget(m);
    } else {
      SplitAccepts(m, t);
    }
  }

  lemma SplitEmptyTarget(m: string)
    requires EqualCI(m, "GET") || EqualCI(m, "POST")
    ensures SplitRequestLine(m + " " + [] + " " + VERSION) == None
  {
    var text := m + " " + [] + " " + VERSION;
    var b := |m|;
    MethodNoBlank(m);
    assert text == m + (" " + [] + " " + VERSION);
    FindBlankAt([], m, " " + [] + " " + VERSION);
    assert text[..b] == m;
    SkipBlanksRun(text, b + 1, b + 2);
    assert text == (m + " " + [] + " ") + VERSION + [];
    FindBlankAt(m + " " + [] + " ", VERSION, []);
  }

  lemma SplitAccepts(m: string, t: string)
    requires EqualCI(m, "GET") || EqualCI(m, "POST")
    requires NoBlank(t) && t != []
    ensures SplitRequestLine(m + " " + t + " " + VERSION) ==
      Some(RequestLine(if EqualCI(m, "GET") then GET else POST, t))
  {
    var text := m + " " + t + " " + VERSION;
    var b := |m|;
    MethodNoBlank(m);
    assert text == m + (" " + t + " " + VERSION);
    FindBlankAt([], m, " " + t + " " + VERSION);
    assert text[..b] == m;
    SkipBlanksRun(text, b + 1, b + 1);
    assert text == (m + " ") + t + (" " + VERSION);
    FindBlankAt(m + " ", t, " " + VERSION);
    var v := b + 1 + |t|;
    assert text[b + 1..v] == t;
    SkipBlanksOver(m + " " + t, " ", VERSION);
  }

  /**
   * `FindBlank` in `p + w + q` from the end of `p` where `w` has no blank: the
   * first character of `q` if it is blank, none if `q` is empty.
   */
  lemma FindBlankAt(p: string, w: string, q: string)
    requires NoBlank(w)
    requires q == [] || IsBlank(q[0])
    ensures FindBlank(p + w + q, |p|) == if q == [] then None else Some(|p| + |w|)
  {
    var s := p + w + q;
    assert forall k :: |p| <= k < |p| + |w| ==> s[k] == w[k - |p|];
    FindBlankRun(s, |p|, |p| + |w|);
  }

  lemma {:induction false} FindBlankRun(s: string, i: nat, e: nat)
    requires i <= e <= |s|
    requires forall k :: i <= k < e ==> !IsBlank(s[k])
    requires e == |s| || IsBlank(s[e])
    decreases e - i
    ensures FindBlank(s, i) == if e == |s| then None else Some(e)
  {
    if i < e {
      FindBlankRun(s, i + 1, e);
    }
  }

  // ---------------------------------------------------------------------------
  // parse_headers
  // ---------------------------------------------------------------------------

  /** What one header line means to `parse_headers`. */
  datatype Header =
    | Blank
    | Connection(keepAlive: bool)
    | ContentLength(length: int)
    | Host(host: string)
    | Unknown

  /**
   * `parse_headers(text)`: the empty line ends the head; `Connection:`,
   * `Content-length:` and `Host:` are recognised ignoring case, with blanks after
   * the colon skipped. `atol`'s `long` is stored into the `int` `m_content_len`.
   */
  function ParseHeader(text: string): (h: Header)
    ensures h.ContentLength? ==> -INT_MAX - 1 <= h.length <= INT_MAX
  {
    if text == [] then Blank
    else if StartsWithCI(text, "Connection:") then
      Connection(EqualCI(text[SkipBlanks(text, 11)..], "keep-alive"))
    else if StartsWithCI(text, "Content-length:") then
      ContentLength(ToInt32(Atol(text[SkipBlanks(text, 15)..])))
    else if StartsWithCI(text, "Host:") then
      Host(text[SkipBlanks(text, 5)..])
    else Unknown
  }

  /** `SkipBlanks` over a run of blanks lands on the first character after it. */
  lemma SkipBlanksOver(p: string, blanks: string, v: string)
    requires forall k :: 0 <= k < |blanks| ==> IsBlank(blanks[k])
    requires v == [] || !IsBlank(v[0])
    ensures var s := p + blanks + v; SkipBlanks(s, |p|) == |p| + |blanks| && s[|p| + |blanks|..] == v
  {
    var s := p + blanks + v;
    SkipBlanksRun(s, |p|, |p| + |blanks|);
    assert s[|p| + |blanks|..] == v;
  }

  lemma {:induction false} SkipBlanksRun(s: string, i: nat, e: nat)
    requires i <= e <= |s|
    requires forall k :: i <= k < e ==> IsBlank(s[k])
    requires e == |s| || !IsBlank(s[e])
    decreases e - i
    ensures SkipBlanks(s, i) == e
  {
    if i < e {
      SkipBlanksRun(s, i + 1, e);
    }
  }

  /**
   * A `Connection:` header, in any case and with any blanks after the colon,
   * asks for a kept-alive connection exactly when its value is `keep-alive`,
   * ignoring case.
   */
  lemma ConnectionHeader(name: string, blanks: string, v: string)
    requires EqualCI(name, "Connection:")
    requires forall k :: 0 <= k < |blanks| ==> IsBlank(blanks[k])
    requires v == [] || !IsBlank(v[0])
    ensures ParseHeader(name + blanks + v) == Connection(EqualCI(v, "keep-alive"))
  {
    var s := name + blanks + v;
    assert s[..11] == name;
    SkipBlanksOver(name, blanks, v);
  }

  /** Every `int` length that `%d` prints in a `Content-Length:` header is read back. */
  lemma ContentLengthHeader(name: string, n: int)
    requires EqualCI(name, "Content-length:")
    requires -INT_MAX - 1 <= n <= INT_MAX
    ensures ParseHeader(name + " " + FormatInt(n)) == ContentLength(n)
  {
    var s := name + " " + FormatInt(n);
    assert s[..15] == name;
    assert !StartsWithCI(s, "Connection:") by {
      assert Lower(s[3]) != Lower("Connection:"[3]);
    }
    var f := FormatInt(n);
    assert f[0] == '-' || IsDigit(f[0]);
    SkipBlanksOver(name, " ", f);
    AtolFormatInt(n);
  }

  // ---------------------------------------------------------------------------
  // parse_content
  // ---------------------------------------------------------------------------

  /** What `parse_content` makes of the body: incomplete, complete, or a NUL written outside the buffer. */
  datatype ContentResult = Incomplete | Complete(body: string) | OutOfBounds(index: int)

  /**
   * `parse_content` as written, with the body's text at `start` in `buf`: once
   * `m_read_idx >= m_content_len + m_checked_idx` (an `int` sum, which wraps) it
   * writes a NUL at `start + m_content_len` and takes the C string at `start` as
   * the body. Nothing bounds that index to the buffer.
   */
  function ContentAsWritten(buf: seq<char>, start: int, checked: int, read: int, contentLen: int): (r: ContentResult)
  {
    if read >= ToInt32(contentLen + checked) then
      var at := start + contentLen;
      if 0 <= at < |buf| then Complete(CStr(buf[at := '\0'], start)) else OutOfBounds(at)
    else Incomplete
  }

  /**
   * A negative `Content-length` (which `atol` and the `int` keep) that reaches
   * back past the start of the read buffer passes the guard at once and makes
   * the source write its NUL before the buffer.
   */
  lemma ContentNegativeLength(buf: seq<char>, start: int, checked: int, read: int, contentLen: int)
    requires 0 <= start <= checked <= read <= |buf| == READ_BUFFER_SIZE
    requires -INT_MAX - 1 <= contentLen < -start
    ensures ContentAsWritten(buf, start, checked, read, contentLen) == OutOfBounds(start + contentLen)
  {
    assert ToInt32(contentLen + checked) == contentLen + checked;
  }

  /**
   * A small negative length whose NUL still lands inside the buffer: the source
   * completes the body there, at once, where the corrected `Content` goes on
   * waiting.
   */
  lemma ContentSmallNegative()
    ensures var buf := seq(READ_BUFFER_SIZE, _ => 'a');
      ContentAsWritten(buf, 100, 100, 100, -5).Complete? && Content(buf, 100, 100, 100, -5) == Incomplete
  {
  }

  /** `Content-length: 2147483647` makes the sum wrap and the NUL land far beyond the buffer. */
  lemma ContentWrappedLength()
    ensures ContentAsWritten(seq(READ_BUFFER_SIZE, _ => 'a'), 100, 100, 100, INT_MAX) == OutOfBounds(100 + INT_MAX)
  {
  }

  /**
   * `parse_content` with the bounds its NUL needs: the body is complete once
   * `content_len` bytes have arrived after `checked`, for a length that is not
   * negative and a terminator that falls inside the buffer. The body is then
   * the C string at `start` cut at `start + content_len`.
   */
  function Content(buf: seq<char>, start: int, checked: int, read: int, contentLen: int): (r: ContentResult)
    requires 0 <= start <= checked <= read <= |buf|
    ensures !r.OutOfBounds?
    ensures r.Complete? ==> |r.body| <= contentLen && start + |r.body| <= read && r.body == buf[start..start + |r.body|]
    ensures r.Complete? <==> 0 <= contentLen && contentLen + checked <= read && start + contentLen < |buf|
  {
    if 0 <= contentLen && contentLen + checked <= read && start + contentLen < |buf| then
      var b := buf[start + contentLen := '\0'];
      var body := CStr(b, start);
      CStrStops(b, start, start + contentLen);
      assert forall k :: start <= k < start + |body| ==> b[k] == buf[k];
      assert body == buf[start..start + |body|];
      Complete(body)
    else Incomplete
  }

  /** Wherever the source's NUL falls inside the buffer and its guard holds without wrapping, the two agree. */
  lemma ContentAgrees(buf: seq<char>, start: int, checked: int, read: int, contentLen: int)
    requires 0 <= start <= checked <= read <= |buf|
    requires 0 <= contentLen && contentLen + checked <= INT_MAX
    ensures ContentAsWritten(buf, start, checked, read, contentLen).OutOfBounds? ||
      ContentAsWritten(buf, start, checked, read, contentLen) == Content(buf, start, checked, read, contentLen)
  {
  }
}
