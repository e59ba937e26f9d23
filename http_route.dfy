/**
 * The routing part of `do_request`: from the normalised target `m_url`, the
 * CGI flag and the POST body to the file path `m_real_file`, with the table of
 * registered users passed in and handed back. A POST to a target whose last
 * segment starts with `2` logs in and one starting with `3` registers; a target
 * whose last segment starts with `0`, `1`, `5` or `6` names a fixed page. The
 * database insert is abstracted by whether it fails; `stat` by a map from paths
 * to file attributes.
 */
module HttpRoute {
  import opened Wrappers
  import opened CString
  import opened HttpParse

  /** `doc_root`, which every `m_real_file` starts with. */
  const DOC_ROOT: string := "/home/acg/Documents/study/netWork/xlaoTinyWebServer/root"

  /** `FILENAME_LEN - len - 1`: the room `strncpy` leaves for the target after the root. */
  const ROOM: int := FILENAME_LEN - |DOC_ROOT| - 1

  /** The name and password of a login or registration form. */
  datatype Credentials = Credentials(name: string, password: string)

  /**
   * The two copy loops over `m_string == body`: the name runs from index 5 up
   * to the first `&`, the password from ten past that `&` (the length of
   * `&password=`) to the end. `None` stands for a body on which those loops
   * read past its terminating NUL or overrun the 100-byte `name` or `passwd`.
   */
  function ParseCredentials(body: string): (r: Option<Credentials>)
    ensures r.Some? ==> |r.value.name| < 100 && |r.value.password| < 100 && '&' !in r.value.name
  {
    match FindChar(body, '&', 5)
    case None => None
    case Some(a) =>
      if a + 10 > |body| || a - 5 >= 100 || |body| - (a + 10) >= 100 then None
      else
        assert '&' !in body[5..a] by {
          forall k | 0 <= k < a - 5 ensures body[5..a][k] != '&' {
            assert body[5..a][k] == body[5 + k];
          }
        }
        Some(Credentials(body[5..a], body[a + 10..]))
  }

  /** The form the login and registration pages post: `user=<name>&password=<password>`. */
  function FormBody(c: Credentials): string
  {
    "user=" + c.name + "&password=" + c.password
  }

  /** The credentials of every form whose fields fit are read back from its body. */
  lemma CredentialsRoundTrip(c: Credentials)
    requires '&' !in c.name && |c.name| < 100 && |c.password| < 100
    ensures ParseCredentials(FormBody(c)) == Some(c)
  {
    var body := FormBody(c);
    var a := 5 + |c.name|;
    assert body == "user=" + (c.name + ("&password=" + c.password));
    assert forall k :: 5 <= k < a ==> body[k] == c.name[k - 5];
    assert body[a] == '&';
    FindCharRun(body, '&', 5, a);
    assert body[5..a] == c.name;
    assert body[a + 10..] == c.password;
  }

  lemma {:induction false} FindCharRun(s: string, c: char, i: nat, e: nat)
    requires i <= e < |s| && s[e] == c
    requires forall k :: i <= k < e ==> s[k] != c
    decreases e - i
    ensures FindChar(s, c, i) == Some(e)
  {
    if i < e {
      FindCharRun(s, c, i + 1, e);
    }
  }

  /** `strrchr(url, '/')` as an index, for a target that starts with `/`. */
  function LastSlash(url: string): (k: nat)
    requires url != [] && url[0] == '/'
    ensures k < |url| && url[k] == '/'
    ensures forall j :: k < j < |url| ==> url[j] != '/'
  {
    LastSlashFrom(url, |url| - 1)
  }

  function LastSlashFrom(url: string, i: nat): (k: nat)
    requires i < |url| && url[0] == '/'
    ensures k <= i && url[k] == '/'
    ensures forall j :: k < j <= i ==> url[j] != '/'
  {
    if url[i] == '/' then i else LastSlashFrom(url, i - 1)
  }

  /** The character of a C string at index `k`, which is NUL at its end. */
  function At(s: string, k: nat): char
    requires k <= |s|
  {
    if k < |s| then s[k] else '\0'
  }

  /**
   * `*(p + 1)` read again after `strcpy(m_url, newUrl)` has overwritten the old
   * target `oldUrl` in place, `p` still pointing at index `k` of the old one: the
   * new string's byte there, its NUL, or a byte of the old target past the new
   * terminator.
   */
  function Peek(oldUrl: string, newUrl: string, k: nat): char
    requires k < |oldUrl|
  {
    if k + 1 <= |newUrl| then At(newUrl, k + 1) else At(oldUrl, k + 1)
  }

  /**
   * The page `m_real_file` names for the byte `c` after the last `/` of the
   * target `url`: four fixed pages, otherwise the root followed by as much of the
   * target as `strncpy` has room for.
   */
  function PageFile(c: char, url: string): (file: string)
    ensures |DOC_ROOT| <= |file| <= FILENAME_LEN - 1 && file[..|DOC_ROOT|] == DOC_ROOT
    ensures c !in "0156" ==> file[|DOC_ROOT|..] <= url && (|url| <= ROOM ==> file[|DOC_ROOT|..] == url)
  {
    if c == '0' then DOC_ROOT + "/register.html"
    else if c == '1' then DOC_ROOT + "/log.html"
    else if c == '5' then DOC_ROOT + "/picture.html"
    else if c == '6' then DOC_ROOT + "/video.html"
    else DOC_ROOT + url[..if |url| <= ROOM then |url| else ROOM]
  }

  /** The size of the two heap buffers `do_request` mallocs: `m_url_real` and `sql_insert`. */
  const HEAP_BUF_SIZE: int := 200

  /** What `do_request` copies into `m_url_real` for a login or registration: `/` and the target after its second byte. */
  function UrlReal(url: string): string
    requires |url| >= 2
  {
    "/" + url[2..]
  }

  /** The statement `do_request` builds in `sql_insert` for a registration. */
  function SqlInsert(cr: Credentials): string
  {
    "INSERT INTO user(username,passwd) VALUES(" + "'" + cr.name + "', '" + cr.password + "')"
  }

  /** A C string fits a buffer when it and its NUL do. */
  predicate Fits(text: string, size: int)
  {
    |text| + 1 <= size
  }

  /** The target after routing (a login or registration overwrites it), the file it names and the user table after it. */
  datatype Routed = Routed(url: string, file: string, users: map<string, string>)

  /** The page a registration of `name` leads to, and the table after it. */
  function Register(cr: Credentials, users: map<string, string>, insertFails: bool): (r: (string, map<string, string>))
    ensures r.1.Keys == users.Keys + {cr.name}
    ensures forall n :: n in users ==> r.1[n] == users[n]
    ensures cr.name !in users ==> r.1[cr.name] == cr.password
    ensures r.0 == "/log.html" <==> cr.name !in users && !insertFails
    ensures r.0 in {"/log.html", "/registerError.html"}
  {
    if cr.name !in users then
      (if insertFails then "/registerError.html" else "/log.html", users[cr.name := cr.password])
    else ("/registerError.html", users)
  }

  /** The page a login leads to. */
  function Login(cr: Credentials, users: map<string, string>): (page: string)
    ensures page == "/welcome.html" <==> cr.name in users && users[cr.name] == cr.password
    ensures page in {"/welcome.html", "/logError.html"}
  {
    if cr.name in users && users[cr.name] == cr.password then "/welcome.html" else "/logError.html"
  }

  /**
   * The routing of `do_request` for a target `url` (which begins with `/` and is
   * at least two bytes long after `parse_request_line`). `None` stands for a
   * login or registration on which the source writes past a buffer or reads
   * past the body: a target whose copy does not fit `m_url_real`, a body the
   * credential loops cannot parse safely, or a registration whose statement
   * does not fit `sql_insert`. No user is ever removed or given a new password.
   */
  function Route(url: string, cgi: bool, body: string, users: map<string, string>, insertFails: bool): (r: Option<Routed>)
    requires |url| >= 2 && url[0] == '/'
    ensures r.Some? ==> |r.value.url| >= 2 && r.value.url[0] == '/'
    ensures r.Some? ==> users.Keys <= r.value.users.Keys
    ensures r.Some? ==> forall n :: n in users ==> r.value.users[n] == users[n]
  {
    var k := LastSlash(url);
    var c := At(url, k + 1);
    if cgi && (c == '2' || c == '3') then
      if !Fits(UrlReal(url), HEAP_BUF_SIZE) then None
      else match ParseCredentials(body)
      case None => None
      case Some(cr) =>
        if c == '3' && !Fits(SqlInsert(cr), HEAP_BUF_SIZE) then None
        else
          var (newUrl, users') := if c == '3' then Register(cr, users, insertFails) else (Login(cr, users), users);
          Some(Routed(newUrl, PageFile(Peek(url, newUrl, k), newUrl), users'))
    else Some(Routed(url, PageFile(c, url), users))
  }

  /**
   * A login posted to a target whose last segment starts with `2` leads to the
   * welcome page exactly when the name is registered with that password, and
   * to the login error page otherwise; the table is unchanged. A target over
   * 200 bytes overflows `m_url_real` first. The source's
   * second look at `*(p + 1)` after overwriting the target always takes the
   * default branch here.
   */
  lemma LoginRoute(url: string, body: string, users: map<string, string>, insertFails: bool)
    requires |url| >= 2 && url[0] == '/'
    requires At(url, LastSlash(url) + 1) == '2'
    requires ParseCredentials(body).Some?
    ensures var cr := ParseCredentials(body).value;
      Route(url, true, body, users, insertFails) ==
        if |url| > HEAP_BUF_SIZE then None
        else
          var page := if cr.name in users && users[cr.name] == cr.password then "/welcome.html" else "/logError.html";
          Some(Routed(page, DOC_ROOT + page, users))
  {
    var k := LastSlash(url);
    var cr := ParseCredentials(body).value;
    PeekCgi(url, Login(cr, users), k);
  }

  /**
   * A registration posted to a target whose last segment starts with `3`: a
   * new name is added with its password and leads to the login page, or to the
   * registration error page when the database insert fails; a name already
   * registered leaves the table alone and leads to the registration error page.
   * A target over 200 bytes overflows `m_url_real`, and a name and password
   * over 151 bytes together overflow `sql_insert`.
   */
  lemma RegisterRoute(url: string, body: string, users: map<string, string>, insertFails: bool)
    requires |url| >= 2 && url[0] == '/'
    requires At(url, LastSlash(url) + 1) == '3'
    requires ParseCredentials(body).Some?
    ensures var cr := ParseCredentials(body).value;
      Route(url, true, body, users, insertFails) ==
        if |url| > HEAP_BUF_SIZE || |cr.name| + |cr.password| > 151 then None
        else if cr.name !in users then
          var page := if insertFails then "/registerError.html" else "/log.html";
          Some(Routed(page, DOC_ROOT + page, users[cr.name := cr.password]))
        else Some(Routed("/registerError.html", DOC_ROOT + "/registerError.html", users))
  {
    var k := LastSlash(url);
    var cr := ParseCredentials(body).value;
    PeekCgi(url, Register(cr, users, insertFails).0, k);
  }

  /**
   * The two heap buffers of `do_request` overflow exactly on long inputs: the
   * copy of the target fits `m_url_real` exactly when the target has at most
   * 200 bytes, and the insert statement fits `sql_insert` exactly when the name
   * and the password have at most 151 bytes together.
   */
  lemma HeapBuffersFit(url: string, cr: Credentials)
    requires |url| >= 2
    ensures Fits(UrlReal(url), HEAP_BUF_SIZE) <==> |url| <= HEAP_BUF_SIZE
    ensures Fits(SqlInsert(cr), HEAP_BUF_SIZE) <==> |cr.name| + |cr.password| <= 151
  {
  }

  /** A registration of an 80-byte name with an 80-byte password overflows `sql_insert`. */
  lemma SqlInsertOverflowExample()
    ensures var cr := Credentials(seq(80, _ => 'a'), seq(80, _ => 'b'));
      Route("/3", true, FormBody(cr), map[], false) == None
  {
    var cr := Credentials(seq(80, _ => 'a'), seq(80, _ => 'b'));
    CredentialsRoundTrip(cr);
    assert LastSlash("/3") == 0;
  }

  /**
   * After a login or registration the byte the source reads at `p + 1` is never
   * one of `0`, `1`, `5` and `6`, so the page is the root and the new target.
   */
  lemma PeekCgi(url: string, newUrl: string, k: nat)
    requires |url| >= 2 && url[0] == '/' && k == LastSlash(url)
    requires At(url, k + 1) == '2' || At(url, k + 1) == '3'
    requires newUrl in {"/log.html", "/registerError.html", "/welcome.html", "/logError.html"}
    ensures PageFile(Peek(url, newUrl, k), newUrl) == DOC_ROOT + newUrl
  {
    PeekNotFixed(url, newUrl, k);
    PageFileDefault(Peek(url, newUrl, k), newUrl);
  }

  lemma PeekNotFixed(url: string, newUrl: string, k: nat)
    requires |url| >= 2 && url[0] == '/' && k == LastSlash(url)
    requires At(url, k + 1) == '2' || At(url, k + 1) == '3'
    requires newUrl in {"/log.html", "/registerError.html", "/welcome.html", "/logError.html"}
    ensures Peek(url, newUrl, k) !in "0156"
  {
    if k + 1 < |newUrl| {
      assert forall j :: 1 <= j < |newUrl| ==> newUrl[j] !in "0156";
    }
  }

  lemma PageFileDefault(c: char, url: string)
    requires c !in "0156" && |url| <= ROOM
    ensures PageFile(c, url) == DOC_ROOT + url
  {
    assert url[..|url|] == url;
  }

  /** What `stat` reports about a file. */
  datatype FileStat = FileStat(readableByOthers: bool, isDir: bool, size: nat)

  /**
   * The end of `do_request`: a path `stat` does not find is NO_RESOURCE, one not
   * readable by others FORBIDDEN_REQUEST, a directory BAD_REQUEST, and anything
   * else a FILE_REQUEST.
   */
  function StatCode(fs: map<string, FileStat>, file: string): (code: HttpCode)
    ensures code == FileRequest <==> file in fs && fs[file].readableByOthers && !fs[file].isDir
    ensures code in {NoResource, ForbiddenRequest, BadRequest, FileRequest}
  {
    if file !in fs then NoResource
    else if !fs[file].readableByOthers then ForbiddenRequest
    else if fs[file].isDir then BadRequest
    else FileRequest
  }
}
