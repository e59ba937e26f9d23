/**
 * The reply side of `http_conn` as values: the status texts, the lines the
 * `add_*` helpers format, and `add_response` itself, which appends formatted
 * text to the 1024-byte write buffer with `vsnprintf` under a bounds check.
 */
module HttpResponse {
  import opened Wrappers
  import opened CString
  import opened HttpParse

  const OK_200_TITLE: string := "OK"
  const ERROR_400_TITLE: string := "Bad Request"
  const ERROR_400_FORM: string := "Your request has bad syntax.\n"
  const ERROR_403_TITLE: string := "Forbidden"
  const ERROR_403_FORM: string := "You don't have permission to get the file.\n"
  const ERROR_404_TITLE: string := "Not Found"
  const ERROR_404_FORM: string := "The requested file was not found.\n"
  const ERROR_500_TITLE: string := "Internal Error"
  const ERROR_500_FORM: string := "There was an unusual problem serving the request file.\n"

  /** The page sent for an empty file. */
  const OK_STRING: string := "<html><body></body></html>"

  /** `"%s %d %s\r\n"` with `"HTTP/1.1"`, the status and its title. */
  function StatusLine(status: int, title: string): string
  {
    VERSION + " " + FormatInt(status) + " " + title + "\r\n"
  }

  /** `"Content-Length:%d\r\n"`. */
  function ContentLengthLine(length: int): string
  {
    "Content-Length:" + FormatInt(length) + "\r\n"
  }

  /** `"Content-Type:%s\r\n"` with `"text/html"`. */
  const CONTENT_TYPE_LINE: string := "Content-Type:text/html\r\n"

  /** `"Connection:%s\r\n"` with `keep-alive` or `close`. */
  function LingerLine(linger: bool): string
  {
    "Connection:" + (if linger then "keep-alive" else "close") + "\r\n"
  }

  const BLANK_LINE: string := "\r\n"

  /** The write buffer, its index and whether the last `add_response` succeeded. */
  datatype Appended = Appended(ok: bool, buf: seq<char>, idx: int)

  /**
   * `add_response` of the formatted `text` to `buf` at `m_write_idx == idx`.
   * A full buffer fails at once. Otherwise `vsnprintf` is given
   * `size == WRITE_BUFFER_SIZE - 1 - idx` bytes, writes as much of the text as
   * fits in `size - 1` and a NUL (nothing when `size` is 0), and the call fails,
   * with the index kept but the buffer written, unless the whole text fit.
   * Success moves the index past the text, so it stays below
   * `WRITE_BUFFER_SIZE - 1`.
   */
  function AddResponseSpec(buf: seq<char>, idx: int, text: string): (r: Appended)
    requires |buf| == WRITE_BUFFER_SIZE && 0 <= idx
    ensures |r.buf| == |buf|
    ensures r.ok <==> idx + |text| < WRITE_BUFFER_SIZE - 1
    ensures r.ok ==> r.idx == idx + |text| && r.buf[..r.idx] == buf[..idx] + text
    ensures !r.ok ==> r.idx == idx
    ensures idx < WRITE_BUFFER_SIZE ==> r.buf[..idx] == buf[..idx]
    ensures r.buf[WRITE_BUFFER_SIZE - 1..] == buf[WRITE_BUFFER_SIZE - 1..]
  {
    if idx >= WRITE_BUFFER_SIZE then Appended(false, buf, idx)
    else
      var size := WRITE_BUFFER_SIZE - 1 - idx;
      var b := if size == 0 then buf else Printed(buf, idx, text, size);
      if |text| >= size then Appended(false, b, idx) else Appended(true, b, idx + |text|)
  }

  /** What `vsnprintf(buf + idx, size, "%s", text)` leaves in `buf`, for `size > 0`. */
  function Printed(buf: seq<char>, idx: int, text: string, size: int): (b: seq<char>)
    requires 0 <= idx && 0 < size && idx + size <= |buf|
    ensures |b| == |buf| && b[..idx] == buf[..idx] && b[idx + size..] == buf[idx + size..]
    ensures |text| < size ==> b[..idx + |text|] == buf[..idx] + text && b[idx + |text|] == '\0'
  {
    var n := if |text| < size - 1 then |text| else size - 1;
    var b := buf[..idx] + text[..n] + ['\0'] + buf[idx + n + 1..];
    assert b[..idx] == buf[..idx];
    assert b[idx + size..] == buf[idx + size..];
    assert |text| < size ==> b[..idx + |text|] == buf[..idx] + text[..n];
    b
  }

  /** The concatenation of `parts`. */
  function Concat(parts: seq<string>): string
  {
    if parts == [] then [] else parts[0] + Concat(parts[1..])
  }

  /**
   * `add_response` once for each of `parts`, in order, whatever the earlier
   * ones returned; `ok` is the result of the last call.
   */
  function AddEach(buf: seq<char>, idx: int, parts: seq<string>): (r: Appended)
    requires |buf| == WRITE_BUFFER_SIZE && 0 <= idx
    ensures |r.buf| == WRITE_BUFFER_SIZE && 0 <= r.idx
    ensures idx < WRITE_BUFFER_SIZE - 1 ==> r.idx < WRITE_BUFFER_SIZE - 1
    decreases |parts|
  {
    if parts == [] then Appended(true, buf, idx)
    else
      var a := AddResponseSpec(buf, idx, parts[0]);
      if |parts| == 1 then a else AddEach(a.buf, a.idx, parts[1..])
  }

  /**
   * When all of `parts` fit behind `idx`, every call succeeds and the buffer
   * holds what it held before `idx` followed by the parts, in order.
   */
  lemma {:induction false} AddEachFits(buf: seq<char>, idx: int, parts: seq<string>)
    requires |buf| == WRITE_BUFFER_SIZE && 0 <= idx
    requires idx + |Concat(parts)| < WRITE_BUFFER_SIZE - 1
    decreases |parts|
    ensures var r := AddEach(buf, idx, parts);
      r.ok && r.idx == idx + |Concat(parts)| && r.buf[..r.idx] == buf[..idx] + Concat(parts)
  {
    if parts != [] {
      assert Concat(parts) == parts[0] + Concat(parts[1..]);
      var a := AddResponseSpec(buf, idx, parts[0]);
      assert a.ok && a.idx == idx + |parts[0]| && a.buf[..a.idx] == buf[..idx] + parts[0];
      if |parts| > 1 {
        AddEachFits(a.buf, a.idx, parts[1..]);
        var r := AddEach(a.buf, a.idx, parts[1..]);
        assert r.buf[..r.idx] == a.buf[..a.idx] + Concat(parts[1..]);
        assert buf[..idx] + parts[0] + Concat(parts[1..]) == buf[..idx] + Concat(parts);
      } else {
        assert Concat(parts) == parts[0] + Concat([]);
      }
    }
  }

  /** Adding `a` and then `b` is adding their concatenation. */
  lemma {:induction false} AddEachAppend(buf: seq<char>, idx: int, a: seq<string>, b: seq<string>)
    requires |buf| == WRITE_BUFFER_SIZE && 0 <= idx && a != [] && b != []
    decreases |a|
    ensures var r := AddEach(buf, idx, a); AddEach(buf, idx, a + b) == AddEach(r.buf, r.idx, b)
  {
    var x := AddResponseSpec(buf, idx, a[0]);
    assert (a + b)[0] == a[0];
    assert (a + b)[1..] == a[1..] + b;
    if |a| == 1 {
      assert a[1..] + b == b;
    } else {
      AddEachAppend(x.buf, x.idx, a[1..], b);
    }
  }

  /** Ten to the power `k`. */
  function Pow10(k: nat): (p: nat)
    ensures p >= 1
  {
    if k == 0 then 1 else 10 * Pow10(k - 1)
  }

  /** A number below `10^k` has at most `k` digits. */
  lemma {:induction false} DecimalLength(n: nat, k: nat)
    requires 1 <= k && n < Pow10(k)
    ensures |Decimal(n)| <= k
  {
    if n >= 10 {
      assert k >= 2;
      DecimalLength(n / 10, k - 1);
    }
  }

  /** `%d` prints an `int` in at most eleven characters. */
  lemma FormatIntLength(x: int)
    requires -INT_MAX - 1 <= x <= INT_MAX
    ensures |FormatInt(x)| <= 11
  {
    assert Pow10(10) == 10000000000;
    if x < 0 {
      DecimalLength(-x, 10);
    } else {
      DecimalLength(x, 10);
    }
  }

  /** The lines `process_write` adds for a reply with a body of `length` bytes and no content yet. */
  function HeadParts(status: int, title: string, length: int, linger: bool): seq<string>
  {
    [StatusLine(status, title), ContentLengthLine(length), LingerLine(linger), BLANK_LINE]
  }

  /**
   * A status line, a head and a body of up to 100 bytes fit in the empty write
   * buffer whatever the `int` length announced, so from an empty buffer every
   * line of a reply is written in full and in order.
   */
  lemma ReplyFits(buf: seq<char>, status: int, title: string, length: int, linger: bool, content: seq<string>)
    requires |buf| == WRITE_BUFFER_SIZE
    requires 0 <= status < 1000 && |title| <= 20 && -INT_MAX - 1 <= length <= INT_MAX
    requires |Concat(content)| <= 100
    ensures var parts := HeadParts(status, title, length, linger) + content;
      var r := AddEach(buf, 0, parts);
      r.ok && r.idx == |Concat(parts)| < WRITE_BUFFER_SIZE - 1 && r.buf[..r.idx] == Concat(parts)
  {
    var parts := HeadParts(status, title, length, linger) + content;
    FormatIntLength(status);
    FormatIntLength(length);
    ConcatAppend(HeadParts(status, title, length, linger), content);
    Concat4(StatusLine(status, title), ContentLengthLine(length), LingerLine(linger), BLANK_LINE);
    AddEachFits(buf, 0, parts);
    assert buf[..0] + Concat(parts) == Concat(parts);
  }

  lemma Concat4(a: string, b: string, c: string, d: string)
    ensures Concat([a, b, c, d]) == a + b + c + d
  {
    assert [d][1..] == [];
    assert Concat([d]) == d;
    assert [c, d][1..] == [d];
    assert Concat([c, d]) == c + d;
    assert [b, c, d][1..] == [c, d];
    assert Concat([b, c, d]) == b + (c + d);
    assert [a, b, c, d][1..] == [b, c, d];
  }

  lemma {:induction false} ConcatAppend(a: seq<string>, b: seq<string>)
    decreases |a|
    ensures Concat(a + b) == Concat(a) + Concat(b)
  {
    if a == [] {
      assert a + b == b;
    } else {
      ConcatAppend(a[1..], b);
      assert (a + b)[0] == a[0];
      assert (a + b)[1..] == a[1..] + b;
    }
  }
}
