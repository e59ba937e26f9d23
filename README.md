# xlaoTinyWebServer core, modelled in Dafny

xlaoTinyWebServer is a small C++ web server for Linux. Its main thread waits on
epoll. It hands each readable connection to a pool of worker threads, which
parse the HTTP request and compose the reply. It expires idle connections with
a timer, logs through a bounded queue, and reads user accounts through a pool
of MySQL connections.

This project models the sequential logic under that plumbing and proves what
each piece promises:

- **`http_conn`**, one client connection (modules `HttpConn`, `HttpParse`,
  `HttpRoute`, `HttpResponse`, `HttpWrite`, `CString`). The class has:
  - the 2048-byte read buffer that `read_once` fills;
  - the line scanner `parse_line`, which zeroes each CR LF in place;
  - the three-state request parser driven by `process_read`: request line,
    then headers, then body;
  - the routing of `do_request`, with login and registration against a user
    table;
  - the reply that `process_write` composes in the 1024-byte write buffer;
  - the partial-write accounting of `write` over the two `iovec`s, the reply
    head and the file;
  - the reset `init()`.

  The buffers are Dafny `array`s, and the connection's fields are fields of
  the class `HttpConn.HttpConn`. Each method is tied to a function that
  specifies it (`ParseLineSpec`, `ParseRequestLine`, `ParseHeader`, `Content`,
  `Route`, `AddResponseSpec`, `AddEach`, `WriteLoopAsWritten`), and the
  properties are proved about those functions.
- **`block_queue<T>`**, the bounded circular queue of the asynchronous log
  (module `BlockQueue`). It is a class over an array, with `m_front`,
  `m_back` and `m_size`, and a ghost sequence of its contents in FIFO order.
- **`sort_timer_list`**, a doubly linked list of timers sorted by expiry
  (module `ListTimer`). The `prev`/`next` pointers are real heap objects, and
  the nodes from head to tail are a ghost sequence.
- **`time_heap`**, the lazy-deletion timer heap (module `TimeHeap`). The
  `std::priority_queue` is modelled as the multiset of timers it holds, ordered
  by `cmp`.
- **`connection_pool`**, the MySQL connection pool (module
  `SqlConnectionPool`). It is a FIFO list of opaque handles with the
  `unsigned int` counters `freeConn`, `curConn` and `maxConn`, which wrap
  modulo 2^32. The semaphore count is kept as a number, and `connectionRAII`
  is a class of its own.

The following are parameters:

- what the socket delivers: the bytes that arrive, then how `recv` ends;
- what `writev` reports;
- the user table and whether the database insert fails;
- what `stat` says about each path;
- the current time;
- the answers of `mysql_real_connect`.

Some quirks of the source are kept as they are written:

- BAD_REQUEST is answered with a 404 status.
- NO_RESOURCE has no case in `process_write`.
- A FILE_REQUEST for an empty file composes the empty page and then falls
  through to `default: return false`.
- `add_headers` returns no value.
- `write` cuts the head `iovec` by the cumulative `bytes_have_send` and judges it sent
  against its own shrunken length.
- A bad line makes `process_read` return NO_REQUEST, not BAD_REQUEST.
- `front()` of the queue reads the slot the last `pop` consumed, and `-1`
  before the first pop.
- `tick` of the list leaves `tail` pointing at the last node it removed when
  the list runs empty.
- The pool's port is stored into a `std::string` through `operator=(char)`.

## Model

| member | source | states |
|---|---|---|
| Wrappers.Inc32 | CGImysql/sql_connection_pool.cpp:93 | `++` on an `unsigned int` adds one and wraps from UINT_MAX to 0 |
| Wrappers.Dec32 | CGImysql/sql_connection_pool.cpp:92 | `--` on an `unsigned int` subtracts one and wraps from 0 to UINT_MAX |
| Wrappers.IncDecInverse | CGImysql/sql_connection_pool.cpp:108-109 | a release after a check-out, or the reverse, puts each 32-bit counter back where it was, even across the wrap |
| Wrappers.ToInt32 | http/http_conn.cpp:806 | the `off_t` file size passed to the `int` parameter of `add_headers` is the 32-bit value congruent to it, and unchanged when it fits |
| CString.CStr | http/http_conn.h:105 | the line `get_line` hands out is the bytes from its start to the first NUL, with no NUL inside |
| CString.CStrStops | http/http_conn.cpp:391-392 | a NUL written at `text[m_content_len]` bounds the body string to at most `m_content_len` bytes |
| CString.FindBlank | http/http_conn.cpp:280 | `strpbrk(s, " \t")` finds the first blank, and no blank comes before it |
| CString.SkipBlanks | http/http_conn.cpp:300 | `strspn(s, " \t")` steps over exactly the run of blanks |
| CString.FromChar | http/http_conn.cpp:316 | `strchr` finds a suffix exactly when the character occurs, and that suffix starts at its first occurrence |
| CString.FindChar | http/http_conn.cpp:469 | the name loop stops at the first `&` from index 5 on |
| CString.DigitsEnd | http/http_conn.cpp:367 | the digits `atol` reads are the longest run of decimal digits |
| CString.SkipSpaces | http/http_conn.cpp:367 | `atol` skips exactly the leading run of white space and stops at the first non-space |
| CString.Atol | http/http_conn.cpp:367 | `atol` always yields a value inside the range of `long` |
| CString.Decimal | http/http_conn.cpp:748 | `%d` of a natural number prints a non-empty run of decimal digits |
| CString.FormatInt | http/http_conn.cpp:748 | `%d` never prints an empty string |
| CString.DecimalValue | http/http_conn.cpp:748 | the digits `%d` prints have the printed number as their value |
| CString.AtolDigits | http/http_conn.cpp:367 | `atol` of an unsigned run of digits is its value, saturated to `long` |
| CString.AtolNegDigits | http/http_conn.cpp:367 | `atol` of a minus sign followed by digits is minus their value, saturated to `long` |
| CString.AtolFormatInt | http/http_conn.cpp:367 | `atol` reads back exactly what `%d` prints, for every `long` |
| HttpParse.FirstTerm | http/http_conn.cpp:195-217 | the scan of `parse_line` stops at the first CR or LF below `m_read_idx`, or at `m_read_idx` when there is none |
| HttpParse.ParseLineSpec | http/http_conn.cpp:191-229 | `parse_line` keeps the buffer size, never moves `m_checked_idx` back or past `m_read_idx`, and moves it forward on LINE_OK |
| HttpParse.ParseLineDecides | http/http_conn.cpp:195-228 | LINE_OK exactly when the first CR or LF is a CR followed by an LF or an LF after a CR above index 1; the index then moves past the pair and exactly those two bytes become NUL; LINE_BAD exactly for any other CR or LF that is not a CR in the last byte read, with the index left on it and the buffer unchanged |
| HttpParse.ParseLineLocal | http/http_conn.cpp:195-228 | `parse_line` neither reads nor writes a byte at or beyond `m_read_idx` |
| HttpParse.ParseLineOpen | http/http_conn.cpp:195-228 | LINE_OPEN exactly when no CR or LF is left, with the index at `m_read_idx`, or when the first is a CR in the last byte read, with the index on that CR; the buffer is then unchanged |
| HttpParse.ParseLineOkText | http/http_conn.cpp:207-223 | after LINE_OK the line at `m_start_line` is the text up to the zeroed CR |
| HttpParse.ParseLineStable | http/http_conn.cpp:406 | calling `parse_line` again after LINE_OPEN or LINE_BAD gives the same status, index and buffer |
| HttpParse.TargetNullDerefExample | http/http_conn.cpp:312-319 | `http://x` leaves `m_url` null, and the next `strncasecmp` reads through it |
| HttpParse.Target | http/http_conn.cpp:312-333 | an accepted target starts with `/` and is at least two bytes long |
| HttpParse.TargetSchemes | http/http_conn.cpp:312-333 | an `http://` or `https://` prefix in any case is cut to the first `/` after it, and refused when there is none; `/` alone becomes `/index.html`; a target with neither prefix that does not start with `/` is refused |
| HttpParse.TargetAgrees | http/http_conn.cpp:312-326 | wherever the source does not dereference null, the corrected normalisation accepts and rejects as the source does, with the same target; the null case is rejected |
| HttpParse.TargetPath | http/http_conn.cpp:325-333 | a target starting with `/` is kept, and `/` alone becomes `/index.html` |
| HttpParse.SplitRequestLine | http/http_conn.cpp:280-309 | the method kept from a split request line is GET or POST |
| HttpParse.ParseRequestLine | http/http_conn.cpp:275-338 | an accepted request line has the method GET or POST and a target that starts with `/` and is at least two bytes long |
| HttpParse.ParseRequestLineRejects | http/http_conn.cpp:280-309 | a line without a blank is BAD_REQUEST, and so is one whose method is neither GET nor POST in any case; an accepted line keeps the method its first field names and ends, after a blank, in `HTTP/1.1` in any case |
| HttpParse.ParseRequestLineAccepts | http/http_conn.cpp:280-337 | `GET` or `POST` in any case, a blank, a target without blanks, a blank and `HTTP/1.1` is accepted with that method and the normalised target, and refused exactly when the target is |
| HttpParse.SplitEmptyTarget | http/http_conn.cpp:300-305 | a request line with two blanks and no target between them is BAD_REQUEST |
| HttpParse.SplitAccepts | http/http_conn.cpp:280-309 | a well-formed request line splits into its method and its raw target |
| HttpParse.ParseHeader | http/http_conn.cpp:363-367 | the content length kept is a 32-bit `int` |
| HttpParse.ConnectionHeader | http/http_conn.cpp:355-361 | `Connection:` in any case, with any blanks after it, asks for keep-alive exactly when its value is `keep-alive` in any case |
| HttpParse.ContentLengthHeader | http/http_conn.cpp:363-368 | every `int` that `%d` prints in a `Content-length:` header is read back as that length |
| HttpParse.ContentNegativeLength | http/http_conn.cpp:389-391 | every negative `Content-length` that reaches back past the start of the read buffer passes the guard at once and puts the NUL before the buffer |
| HttpParse.ContentWrappedLength | http/http_conn.cpp:389-391 | a `Content-length` of INT_MAX wraps the guard's sum and puts the NUL far beyond the buffer |
| HttpParse.ContentSmallNegative | http/http_conn.cpp:389-393 | `Content-length: -5` with the body at index 100 puts the NUL inside the buffer and the source completes the request, where the corrected `Content` goes on waiting |
| HttpParse.Content | http/http_conn.cpp:386-396 | the body is complete exactly when the length is non-negative, that many bytes have arrived after `m_checked_idx` and the terminator falls in the buffer; the body is then the received bytes at the start of the text, at most that long |
| HttpParse.ContentAgrees | http/http_conn.cpp:389-395 | for a length that is not negative, wherever the source's NUL falls inside the buffer and its sum does not wrap, the corrected body parse agrees with the source |
| HttpRoute.ParseCredentials | http/http_conn.cpp:466-476 | the name read from a form contains no `&`, and the name and the password each fit their 100-byte arrays |
| HttpRoute.CredentialsRoundTrip | http/http_conn.cpp:466-476 | the form body `user=<name>&password=<password>` is read back as that name and that password |
| HttpRoute.LastSlash | http/http_conn.cpp:452 | `strrchr(m_url, '/')` finds a `/` with no `/` after it |
| HttpRoute.PageFile | http/http_conn.cpp:520-554 | every file starts with the document root and fits, with its NUL, in the 200-byte `m_real_file`; outside the four fixed pages the rest of it is a prefix of the target, the whole target when it fits |
| HttpRoute.Register | http/http_conn.cpp:479-508 | a registration adds the name to the table, with its password when it is new, changes no registered password, and leads to the login page exactly when the name is new and the insert succeeds, otherwise to the registration error page |
| HttpRoute.Login | http/http_conn.cpp:510-517 | a login leads to the welcome page exactly when the name is registered with that password, and otherwise to the login error page |
| HttpRoute.Route | http/http_conn.cpp:449-554 | routing keeps the target starting with `/`, and no user is ever removed or given a new password |
| HttpRoute.LoginRoute | http/http_conn.cpp:454-517 | a login with a target of at most 200 bytes leads to the welcome page exactly when the name is registered with that password, otherwise to the login error page, and leaves the table alone; a longer target overflows `m_url_real` and is not routed |
| HttpRoute.RegisterRoute | http/http_conn.cpp:454-508 | a registration with a target of at most 200 bytes and at most 151 bytes of name and password together: a new name is added with its password and leads to the login page, or to the registration error page when the insert fails; a known name leaves the table alone and leads to the registration error page; anything longer overflows `m_url_real` or `sql_insert` and is not routed |
| HttpRoute.HeapBuffersFit | http/http_conn.cpp:458-491 | the copy of the target fits the 200-byte `m_url_real` exactly when the target has at most 200 bytes, and the insert statement fits the 200-byte `sql_insert` exactly when the name and password have at most 151 bytes together |
| HttpRoute.SqlInsertOverflowExample | http/http_conn.cpp:485-491 | registering an 80-byte name with an 80-byte password overflows `sql_insert`, and the model does not route it |
| HttpRoute.PeekCgi | http/http_conn.cpp:520-554 | after a login or registration, the byte the source reads again at `p + 1` never selects a fixed page, so the file is the root followed by the new target |
| HttpRoute.StatCode | http/http_conn.cpp:558-565 | FILE_REQUEST exactly for an existing, world-readable path that is not a directory; otherwise NO_RESOURCE, FORBIDDEN_REQUEST or BAD_REQUEST |
| HttpResponse.AddResponseSpec | http/http_conn.cpp:709-729 | `add_response` succeeds exactly when the text fits below `WRITE_BUFFER_SIZE - 1`; on success the index grows by the text and the buffer holds the old text followed by the new; on failure the index stays; the bytes before the index and the last byte never change |
| HttpResponse.Printed | http/http_conn.cpp:717 | `vsnprintf` touches only the `size` bytes it is given, and a text that fits is copied with a NUL after it |
| HttpResponse.AddEach | http/http_conn.cpp:779-781 | a run of `add_*` calls whose results are ignored keeps the buffer size, and from below `WRITE_BUFFER_SIZE - 1` the index stays below it |
| HttpResponse.AddEachFits | http/http_conn.cpp:709-724 | when all the lines fit, every call succeeds and the buffer holds them in order after the old text |
| HttpResponse.AddEachAppend | http/http_conn.cpp:779-781 | composing one run of lines and then another is composing the two runs together |
| HttpResponse.FormatIntLength | http/http_conn.cpp:748 | `%d` prints an `int` in at most eleven characters |
| HttpResponse.ReplyFits | http/http_conn.cpp:773-835 | in the empty buffer, a status line, the head for any `int` length and a body of up to 100 bytes are all written in full and in order |
| HttpWrite.StartUnsent | http/http_conn.cpp:808-815 | the `iovec`s `process_write` sets up describe the whole head and then the whole file as unsent |
| HttpWrite.AdvanceAsWritten | http/http_conn.cpp:611-623 | each `writev` of `n` bytes adds `n` to `bytes_have_send` and subtracts it from `bytes_to_send`, as the source writes it |
| HttpWrite.AdvanceAsWrittenLosesBytes | http/http_conn.cpp:619-623 | a second partial write of the head makes the source's `iovec`s skip head bytes that were never sent, and a third one points the file segment before the start of the file |
| HttpWrite.Advance | http/http_conn.cpp:611-623 | the corrected update also keeps `bytes_have_send + bytes_to_send` constant |
| HttpWrite.AdvanceUnsent | http/http_conn.cpp:611-623 | whatever `writev` takes of what is left, the corrected update keeps both `iovec`s exactly on the bytes not yet sent |
| HttpWrite.DoneAllSent | http/http_conn.cpp:625 | once nothing is left to send, the head and the file have gone out in full |
| HttpConn.Clear | http/http_conn.cpp:184-185 | `memset` leaves only NULs in the buffer |
| HttpConn.FindTerm | http/http_conn.cpp:195-217 | the scanning loop of `parse_line` stops where the first CR or LF is, as `FirstTerm` says |
| HttpConn.ScanLine | http/http_conn.cpp:191-229 | the `for` loop of `parse_line` returns the status, leaves the index and zeroes the buffer as `ParseLineSpec` says |
| HttpConn.Print | http/http_conn.cpp:717 | the byte copy of `vsnprintf` leaves the buffer `Printed` describes |
| HttpConn.ReplyFromEmpty | http/http_conn.cpp:773-835 | from the empty write buffer, every reply `process_write` composes is written in full and in order, and the last `add_response` succeeds |
| HttpConn.ReplyParts | http/http_conn.cpp:785-828 | only an internal error, a bad request, a forbidden request and a file request get a reply; each is a status line, the length, the connection line and a blank line, then the page when there is one, whose length is the one announced; a bad request gets the 404 status and page; a non-empty file gets the head alone with its size as an `int`, an empty one the empty page |
| HttpConn.WriteLoop | http/http_conn.cpp:598-639 | the corrected loop of `write()`: no byte reported is lost from the sum of sent and unsent bytes, and the connection is reset exactly when a keep-alive reply is finished |
| HttpConn.WriteLoopAsWritten | http/http_conn.cpp:598-639 | the loop of `write()` as written: no byte reported is lost from the sum of sent and unsent bytes, and the connection is reset exactly when a keep-alive reply is finished |
| HttpConn.WriteLoopAgrees | http/http_conn.cpp:611-623 | the source's loop sends exactly as the corrected one whenever the head is already out, or the first `writev` result is not a write or sends all of the head |
| HttpConn.WriteLoopUnsent | http/http_conn.cpp:598-639 | whatever `writev` reports, the `iovec`s keep describing the unsent bytes and no byte is counted twice; a finished reply has gone out in full and returns `m_linger`; the connection is reset exactly when it finishes a keep-alive reply |
| HttpConn.HttpConn.constructor | http/http_conn.cpp:157-164 | a new connection is in the state `init()` leaves, with two fresh buffers |
| HttpConn.HttpConn.Init | http/http_conn.cpp:167-187 | `init()` resets the parser, the indices and the byte counters, and clears both buffers; the body, the file's size and `m_iv` are left as they were |
| HttpConn.HttpConn.ResetParser | http/http_conn.cpp:169-183 | the assignments of `init()` put the parser back on the request line with all indices at 0 |
| HttpConn.HttpConn.ResetWriter | http/http_conn.cpp:170-182 | the assignments of `init()` zero both byte counters and the write index |
| HttpConn.HttpConn.ReadOnce | http/http_conn.cpp:232-272 | the edge-triggered read appends what fits of the arriving bytes after `m_read_idx`, leaving the rest of the buffer alone; it succeeds exactly when everything fit without filling the buffer and `recv` then reports EAGAIN |
| HttpConn.HttpConn.ParseLine | http/http_conn.cpp:191-229 | `parse_line()` moves `m_checked_idx` and zeroes the line end as `ParseLineSpec` says |
| HttpConn.HttpConn.ParseRequestLine | http/http_conn.cpp:275-338 | a bad request line is BAD_REQUEST; a good one stores the method and the normalised target, turns CGI on for POST, moves on to the headers and returns NO_REQUEST |
| HttpConn.HttpConn.ParseHeaders | http/http_conn.cpp:341-383 | the empty line completes the request, or moves on to the body when a length is announced; `Connection: keep-alive` sets `m_linger`; `Content-length:` and `Host:` are stored; any other line changes nothing |
| HttpConn.HttpConn.ParseContent | http/http_conn.cpp:386-396 | once the whole body has arrived, its end is zeroed inside the buffer, it is kept as `m_string` and the request is complete; before that nothing changes and the answer is NO_REQUEST |
| HttpConn.HttpConn.DoRequest | http/http_conn.cpp:447-573 | the target is routed to a file, which is classified by `stat`; the file's size is kept when it exists; the user table only grows |
| HttpConn.HttpConn.ProcessRead | http/http_conn.cpp:399-445 | the parser never goes back a state; NO_REQUEST means no complete line is left to take; any other answer is a bad request line or `do_request`'s verdict on the file it named; no user is removed or changed |
| HttpConn.HttpConn.ProcessLine | http/http_conn.cpp:406-441 | one turn of the loop hands the line at `m_start_line` to the parser of the current state and moves `m_start_line` on; it stops only with a bad request line or an answered request |
| HttpConn.HttpConn.HeaderLine | http/http_conn.cpp:422-430 | a header line keeps the parser past the request line, and the request is answered by `do_request` when the head ends without a body |
| HttpConn.HttpConn.ContentLine | http/http_conn.cpp:431-438 | the request is answered by `do_request` once the whole body has arrived |
| HttpConn.HttpConn.AddResponse | http/http_conn.cpp:709-729 | the write buffer and `m_write_idx` change as `AddResponseSpec` says |
| HttpConn.HttpConn.AddStatusLine | http/http_conn.cpp:733-736 | adds `HTTP/1.1 <status> <title>` and a CR LF, as `add_response` does |
| HttpConn.HttpConn.AddContentLength | http/http_conn.cpp:746-749 | adds `Content-Length:<n>` and a CR LF |
| HttpConn.HttpConn.AddContentType | http/http_conn.cpp:751-754 | adds `Content-Type:text/html` and a CR LF |
| HttpConn.HttpConn.AddLinger | http/http_conn.cpp:756-759 | adds `Connection:keep-alive` or `Connection:close`, after `m_linger` |
| HttpConn.HttpConn.AddBlankLine | http/http_conn.cpp:761-764 | adds the CR LF that ends the head |
| HttpConn.HttpConn.AddContent | http/http_conn.cpp:767-770 | adds the body text |
| HttpConn.HttpConn.AddHeaders | http/http_conn.cpp:739-744 | adds the length line, the connection line and the blank line, whatever each returns, and reports nothing |
| HttpConn.HttpConn.AddReply | http/http_conn.cpp:779-783 | an error reply's status line, head and body, with the result of adding the body |
| HttpConn.HttpConn.ProcessWrite | http/http_conn.cpp:773-836 | composes the lines of the reply for the code; succeeds for an error reply whose body fit and for a non-empty file, and fails otherwise; a non-empty file goes out as a second `iovec` of its full size after the head, anything else from the buffer alone; on success from a fresh connection the `iovec`s describe exactly the unsent bytes |
| HttpConn.HttpConn.ErrorReply | http/http_conn.cpp:777-800 | an error reply is sent from the write buffer alone when its body fit |
| HttpConn.HttpConn.FileReply | http/http_conn.cpp:801-828 | a non-empty file succeeds, with the head and the file as two `iovec`s; an empty file gets the empty page and fails |
| HttpConn.HttpConn.FileHead | http/http_conn.cpp:803-806 | the 200 status line and the head for a body of the file's length |
| HttpConn.HttpConn.Write | http/http_conn.cpp:586-639 | with nothing to send, the connection is reset and the result is true; otherwise the `iovec`s move on as the source moves them (`WriteLoopAsWritten`), a finished keep-alive reply resets the connection, and in every other case the buffers, indices, parser state and request fields are untouched; the body, the file's size and `m_iv_count` never change |
| BlockQueue.ModIsWrap | log/block_queue.h:145 | `(i + 1) % m_max_size` on the indices the queue uses is a single wrap-around |
| BlockQueue.Queue.constructor | log/block_queue.h:22-32 | a queue with positive capacity starts empty, with `m_front` and `m_back` at -1 |
| BlockQueue.Create | log/block_queue.h:22-31 | a capacity of 0 or less exits, and any other capacity gives an empty queue of that capacity |
| BlockQueue.CreateDefault | log/block_queue.h:22-32 | `block_queue()` with the default argument gives an empty queue of 1000 slots |
| BlockQueue.Queue.Clear | log/block_queue.h:47-54 | `clear()` empties the queue and restores the constructed indices, without touching the capacity or the slots |
| BlockQueue.Queue.Full | log/block_queue.h:56-66 | `full()` holds exactly when the queue holds `m_max_size` items |
| BlockQueue.Queue.Empty | log/block_queue.h:68-78 | `empty()` holds exactly when the queue holds no item |
| BlockQueue.Queue.Size | log/block_queue.h:107-116 | `size()` is the number of items queued |
| BlockQueue.Queue.MaxSize | log/block_queue.h:118-127 | `max_size()` is the positive capacity |
| BlockQueue.Queue.Front | log/block_queue.h:81-92 | `front()` fails exactly on an empty queue, reads slot -1 before the first pop, and otherwise returns the item the last pop returned, or the newest item once the queue has filled up again |
| BlockQueue.Queue.Back | log/block_queue.h:94-105 | `back()` fails exactly on an empty queue, and otherwise returns the most recently pushed item |
| BlockQueue.Queue.Push | log/block_queue.h:131-152 | a full queue refuses the item and changes nothing; otherwise the item goes into the next slot after `m_back` and is appended to the contents |
| BlockQueue.Queue.Pop | log/block_queue.h:158-189 | an empty queue gives nothing and changes nothing; otherwise `m_front` advances and the oldest item is removed and returned |
| ListTimer.SortedIsRaised | timer/list_timer.h:84 | a sorted list is still in order around a timer whose expiry did not change |
| ListTimer.InsertPos | timer/list_timer.h:183 | a timer goes after every node with an equal or smaller expiry and before the first strictly later one |
| ListTimer.InsertPosSorted | timer/list_timer.h:183 | in a sorted list, every node from the insertion point on expires strictly later |
| ListTimer.InsertPosUnique | timer/list_timer.h:180-193 | those two properties determine where the walk inserts |
| ListTimer.InsertKeepsSorted | timer/list_timer.h:53-73 | inserting a timer where `add_timer` puts it keeps the expiries non-decreasing |
| ListTimer.RaisedRemove | timer/list_timer.h:97-105 | taking a raised timer out leaves the rest sorted, and no node before it expires later |
| ListTimer.RaisedInPlace | timer/list_timer.h:84-85 | a raised timer still strictly before its successor, or at the tail, already sits where a fresh insertion would put it |
| ListTimer.UtilTimer.constructor | timer/list_timer.h:27 | a new timer links to nothing |
| ListTimer.LinkAt | timer/list_timer.h:32-33 | in a consistent list each node's `prev` and `next` are its neighbours, and null at the ends |
| ListTimer.ChainRemoveHead | timer/list_timer.h:125-126 | dropping the head and clearing its successor's `prev` keeps the links consistent |
| ListTimer.ChainRemoveTail | timer/list_timer.h:134-135 | dropping the tail and clearing its predecessor's `next` keeps the links consistent |
| ListTimer.ChainRemoveInner | timer/list_timer.h:141-142 | pointing the neighbours of an inner node at each other keeps the links consistent without it |
| ListTimer.ChainPrepend | timer/list_timer.h:66-68 | linking a timer in front of the head keeps the links consistent |
| ListTimer.ChainInsert | timer/list_timer.h:185-188 | linking a timer in between two nodes, or after the tail, keeps the links consistent |
| ListTimer.Splice | timer/list_timer.h:185-188 | the four pointer writes put the timer between the two nodes and change no other link |
| ListTimer.FireFirst | timer/list_timer.h:165-170 | firing the head moves it to the end of the fired timers |
| ListTimer.TickSplit | timer/list_timer.h:158-171 | where `tick` stops, the fired timers are exactly the leading ones that have expired |
| ListTimer.TickRest | timer/list_timer.h:158-171 | the timers `tick` keeps are still sorted, and all expire after now |
| ListTimer.SortTimerList.constructor | timer/list_timer.h:39 | a new list is empty, with null head and tail |
| ListTimer.SortTimerList.AddTimer | timer/list_timer.h:53-73 | null changes nothing; otherwise the timer is inserted after every equal or earlier expiry, the list stays sorted and linked, and it becomes the head only when strictly earlier than the head |
| ListTimer.SortTimerList.AddTimerAfter | timer/list_timer.h:176-202 | the private `add_timer` links the timer before the first node after the given one that expires strictly later, or at the tail |
| ListTimer.SortTimerList.LinkAtHead | timer/list_timer.h:64-70 | the timer becomes the new head, in front of the old one |
| ListTimer.SortTimerList.FindSlot | timer/list_timer.h:178-193 | the walk stops at the first node that expires strictly later, or at the end, with the node before it |
| ListTimer.SortTimerList.LinkBetween | timer/list_timer.h:183-190 | the timer is linked in between the two nodes; head and tail stay |
| ListTimer.SortTimerList.LinkAtTail | timer/list_timer.h:195-201 | the timer is appended and becomes the tail |
| ListTimer.SortTimerList.SortedAfterInsert | timer/list_timer.h:176-202 | relinking keeps expiries, so the insertion keeps the list sorted |
| ListTimer.SortTimerList.UnlinkHead | timer/list_timer.h:123-129 | the second node becomes the head and loses its `prev` |
| ListTimer.SortTimerList.UnlinkTail | timer/list_timer.h:132-138 | the node before the tail becomes the tail and loses its `next` |
| ListTimer.SortTimerList.AdvanceHead | timer/list_timer.h:166-168 | the step of `tick` drops the head, and its successor, if any, becomes the head |
| ListTimer.SortTimerList.UnlinkInner | timer/list_timer.h:141-143 | an inner node is bridged over, and head and tail stay |
| ListTimer.SortTimerList.AdjustTimer | timer/list_timer.h:76-106 | after the caller raised the timer's expiry, the list is the old one without the timer, with the timer inserted where `add_timer` puts it, so the list is sorted again; nothing moves when the timer is the tail or strictly before its successor |
| ListTimer.SortTimerList.Detach | timer/list_timer.h:88-105 | `adjust_timer` unlinks the head (clearing its `next`) or bridges over an inner node |
| ListTimer.SortTimerList.AdjustPre | timer/list_timer.h:97-105 | after that unlinking the rest is sorted, and re-insertion starts from the old successor |
| ListTimer.SortTimerList.DelTimer | timer/list_timer.h:108-144 | null changes nothing; otherwise exactly that node is unlinked, head and tail are fixed, the rest keep their order and the list stays sorted |
| ListTimer.SortTimerList.SortedAfterRemove | timer/list_timer.h:108-144 | removing a node keeps the list sorted |
| ListTimer.SortTimerList.Tick | timer/list_timer.h:147-172 | exactly the leading timers that expire at or before now are fired, in list order, and removed; every timer left expires after now |
| ListTimer.SortTimerList.TickDone | timer/list_timer.h:158-171 | where the loop of `tick` ends, the list and the fired timers are as `Tick` promises |
| ListTimer.SortTimerList.Destroy | timer/list_timer.h:41-50 | the destructor releases every node and leaves the list empty |
| TimeHeap.HeapTimer.constructor | timer/time_heap.h:21-24 | a new timer expires `delay` after now |
| TimeHeap.CmpStrictWeakOrder | timer/time_heap.h:33-38 | `cmp` is irreflexive and transitive, and leaves timers of equal expiry unordered |
| TimeHeap.TopIsMinimum | timer/time_heap.h:54 | the timer `cmp` puts on top has the minimum expiry |
| TimeHeap.TopExists | timer/time_heap.h:54 | every non-empty heap has a top |
| TimeHeap.TopOf | timer/time_heap.cpp:41 | `top()` of a non-empty heap is a timer `cmp` puts on top |
| TimeHeap.ArmedSnoc | timer/time_heap.cpp:46-47 | a popped timer is fired exactly when its callback is set |
| TimeHeap.ArmedMembers | timer/time_heap.cpp:46-47 | the fired timers are exactly the popped timers whose callback is set |
| TimeHeap.AscendingSnoc | timer/time_heap.cpp:41-48 | popping a top that expires no earlier than the last popped keeps the popped timers in expiry order |
| TimeHeap.PopStep | timer/time_heap.cpp:41-48 | popping an expired top keeps the loop's invariant: the popped timers and the heap share out the original heap, and the popped ones are in order and expired |
| TimeHeap.Expire | timer/time_heap.cpp:35-49 | the loop of `tick` pops exactly the timers expired at now, in non-decreasing expiry order, and fires those whose callback is set |
| TimeHeap.TimeHeap.constructor | timer/time_heap.cpp:8 | a new heap is empty |
| TimeHeap.TimeHeap.AddTimer | timer/time_heap.cpp:19-24 | null changes nothing; otherwise the timer joins the heap |
| TimeHeap.TimeHeap.DelTimer | timer/time_heap.cpp:26-30 | the heap does not change; a non-null timer's callback is cleared and nothing else about it |
| TimeHeap.TimeHeap.Top | timer/time_heap.cpp:52-57 | null exactly for an empty heap, otherwise a minimum-expiry timer, which is not removed |
| TimeHeap.TimeHeap.Tick | timer/time_heap.cpp:32-50 | exactly the timers that expire at or before now are popped, in expiry order; only those with a callback are fired; every timer left expires after now |
| TimeHeap.TimeHeap.Destroy | timer/time_heap.cpp:10-17 | the destructor releases every timer of the heap and leaves it empty |
| SqlConnectionPool.Add32 | CGImysql/sql_connection_pool.cpp:70 | `n` increments of an `unsigned int` stay in range and equal the plain sum when it does not wrap |
| SqlConnectionPool.AddInc32 | CGImysql/sql_connection_pool.cpp:70 | one more increment after `n` of them is `n + 1` of them |
| SqlConnectionPool.Handles | CGImysql/sql_connection_pool.cpp:55-69 | every successful connection attempt yields its handle, in order |
| SqlConnectionPool.PortText | CGImysql/sql_connection_pool.cpp:39 | the `int` port lands in the string as the single character of its low byte |
| SqlConnectionPool.ConnectionPool.constructor | CGImysql/sql_connection_pool.cpp:18-22 | a new pool has both counters at zero and an empty list |
| SqlConnectionPool.ConnectionPool.Init | CGImysql/sql_connection_pool.cpp:31-76 | any failed connect exits; otherwise the list holds one new handle per attempt, `freeConn` counts them, `maxConn` and the semaphore equal `freeConn`, and from an empty pool the bookkeeping is valid |
| SqlConnectionPool.ConnectionPool.Fill | CGImysql/sql_connection_pool.cpp:43-71 | the filling loop fails exactly when some attempt fails; otherwise it appends one handle per attempt, in order, and counts each in `freeConn` |
| SqlConnectionPool.ConnectionPool.GetConnection | CGImysql/sql_connection_pool.cpp:79-97 | an empty list gives null and changes nothing; otherwise the front handle is handed out, `freeConn` drops, `curConn` grows and the bookkeeping stays valid |
| SqlConnectionPool.ConnectionPool.ReleaseConnection | CGImysql/sql_connection_pool.cpp:100-114 | null is refused and changes nothing; otherwise the handle goes to the back, `freeConn` grows, `curConn` drops, the semaphore is posted, and the bookkeeping stays valid when the handle had been handed out |
| SqlConnectionPool.ConnectionPool.DestroyPool | CGImysql/sql_connection_pool.cpp:117-135 | a non-empty list has every handle closed in order, is emptied and has both counters zeroed; an empty one changes nothing |
| SqlConnectionPool.ConnectionRaii.constructor | CGImysql/sql_connection_pool.cpp:148-153 | construction hands the pool's front handle to the caller, with the pool's bookkeeping as `getConnection` leaves it |
| SqlConnectionPool.ConnectionRaii.Release | CGImysql/sql_connection_pool.cpp:155-159 | the destructor gives that same handle back to the end of the list |
| SqlConnectionPool.Bracket | CGImysql/sql_connection_pool.cpp:148-159 | a bracket on a valid pool uses the front handle and returns it to the back, with every counter as before |

## Left out

- Sockets, epoll and the file-descriptor helpers are left out: `setNonBlocking`, `addfd`, `removefd`, `modfd`, `close_conn`, `init(sockfd, addr)`'s registration and user count, and `process()`, which only chains `process_read`, `process_write` and `modfd`. They are operating-system calls.
- `mmap`, `munmap`, `unmap` and `open` are left out. The model keeps only the file's size, not its contents.
- `stat` is a map from paths to their attributes.
- The MySQL database is reduced to whether the registration insert fails. `init_mysql_result` and the connect calls of the pool become given answers.
- The mutexes, condition variables and semaphores (`locker`) are left out, and so is the blocking of `block_queue::pop` and `getConnection`. Each operation is modelled as the critical section it guards.
- The thread pool, the log (`log/log.cpp`), `main.cpp` and every `LOG_INFO` call are left out.
- The global `users` map is passed to `do_request` and handed back.
- The `LT`-mode branch of `read_once` is left out. The build defines `connfdET`, so only the edge-triggered loop is modelled.
- HttpConn.HttpConn.ReadOnce: the bytes that arrive are given as one sequence and one final `recv` outcome. How they split into separate `recv` calls is not modelled, since it does not change the buffer or the result.
- HttpConn.HttpConn.ParseRequestLine: on BAD_REQUEST, the source has already set the method, `cgi` and `m_url` before the check that fails. The model leaves them unchanged. After BAD_REQUEST the connection is answered and closed without reading those fields.
- HttpConn.HttpConn.ParseRequestLine: the target becomes a value. The in-place NUL splitting of the request line is not modelled. Neither is the `strcat` of `index.html`, which writes into the read buffer after the target.
- HttpConn.HttpConn.DoRequest: the `strcpy` of a login or registration page into `m_url` is also modelled as a new value, not as a write into the read buffer. `m_real_file` is the string it holds, not a 200-byte array.
- HttpRoute.Route: `None` stands for every login or registration on which the source overflows a heap buffer: a target of more than 200 bytes overruns the 200-byte `m_url_real` (lines 458-460), and a registration whose name and password have more than 151 bytes together overruns the 200-byte `sql_insert` (lines 485-491). Both are undefined behaviour, and the model routes neither.
- HttpRoute.Route: `None` also stands for a form body on which the source's credential loops read past the body's NUL or overrun `name` or `passwd`. Overrunning `name` or `passwd` is undefined behaviour. Reading past the NUL but inside `m_read_buf` is defined, but what it reads depends on the bytes after the body, which the model does not carry, so the model does not say what the source then does.
- `m_version` is not kept, since nothing reads it after the check.
- The constructor gives the fields `init()` does not reset fixed values, where the source's members are whatever the object held before.
- `bytes_to_send`, `bytes_have_send`, `m_write_idx + st_size` and the `iovec` lengths are unbounded integers. The overflow of the source's 32-bit `int` counters for a file of 2 GiB or more is not modelled.
- HttpConn.HttpConn.Write: `writev`'s results are a given sequence. The model returns `None` when that sequence runs out before `write()` returns.
- HttpConn.WriteLoopUnsent: the fact that `writev` never reports more bytes than are left (`WritesFit`) is assumed only in this lemma.
- HttpConn.HttpConn.ProcessRead: its contract states the parser's invariants and the meaning of its answer, not the field values after the whole loop. Those are stated line by line by ProcessLine, ParseHeaders, ParseContent and DoRequest.
- BlockQueue.Queue.Front: states the two meanings of the slot `m_front` (the item the last pop returned, or the newest item once the queue has filled up). It does not state which item gets overwritten in general.
- TimeHeap: timer expiries are fixed once a timer is built. `main.cpp` raises `expire` of a timer that is inside the heap, which breaks the heap order, and that use is not modelled.
- The destructor of `block_queue` (it only frees the array) and `getFreeConn` of the pool (it returns `freeConn`) have no separate members.
- HttpConn.HttpConn.ParseContent uses the corrected `Content` that the findings below describe; the as-written `ContentAsWritten` is modelled beside it, with counterexamples. HttpConn.HttpConn.Write follows the source as written (`AdvanceAsWritten`); the corrected `Advance` and `WriteLoop` beside it are what `WriteLoopUnsent` proves its properties about, and `WriteLoopAgrees` shows where the two coincide.
- HttpParse.Content: a negative `Content-length` whose NUL still lands inside the read buffer is completed at once by the source (`ContentSmallNegative`); the body is then the C string at the body's start, which may run on past the bytes received. The corrected `Content` waits for more bytes instead, so HttpConn.HttpConn.ParseContent never completes such a request.

## Findings

| source | as written | input that shows it | evidently intended | confidence | as-written member | corrected member |
|---|---|---|---|---|---|---|
| http/http_conn.cpp:613-623 | after a partial `writev`, the head `iovec` is judged sent against its own shrunken length, and cut by the cumulative `bytes_have_send` rather than the bytes just written | a 100-byte head and a 1000-byte file sent 30 and then 20 bytes at a time: the head is then described as 20 bytes where 50 are left, and a third write of 30 points the file segment 20 bytes before the file | the head is compared with and cut against the full head length `m_write_idx`, so that the `iovec`s always cover exactly the unsent bytes | not executed | HttpWrite.AdvanceAsWritten (counterexample HttpWrite.AdvanceAsWrittenLosesBytes) | HttpWrite.Advance (proved by HttpWrite.AdvanceUnsent; the loop over it, HttpConn.WriteLoop, by HttpConn.WriteLoopUnsent) |
| http/http_conn.cpp:389-391 | `parse_content` writes a NUL at `text[m_content_len]` with no bound on the length, and the guard's `int` sum can wrap | `Content-length: -100000` puts the NUL 99900 bytes before the buffer; `Content-length: 2147483647` wraps the sum and puts it far beyond the buffer | a body is complete only for a non-negative length whose terminator falls inside the 2048-byte read buffer; this also turns a small negative length, which the source completes without a bad write, into a wait for more bytes | not executed | HttpParse.ContentAsWritten (counterexamples HttpParse.ContentNegativeLength, HttpParse.ContentWrappedLength) | HttpParse.Content (agreement proved by HttpParse.ContentAgrees) |
| http/http_conn.cpp:312-326 | an `http://` target with no later `/` makes `strchr` return a null `m_url`, which the `https://` comparison then dereferences before the `!m_url` test | the request line `GET http://x HTTP/1.1` | a null target is rejected as BAD_REQUEST, as the later `!m_url` test intends | not executed | HttpParse.TargetAsWritten (counterexample HttpParse.TargetNullDerefExample) | HttpParse.Target (agreement proved by HttpParse.TargetAgrees) |
