// The login session of the TLS chat pair (lesson6/qssl_client/main.cpp and
// lesson6/qssl_server/main.cpp): the request text, the two sides, every run of
// the server alone, and every run of the two together.

module RequestCodec {
  import opened Basics
  import opened QtText

  predicate IsSeparator(c: char) { c == ' ' || c == '\r' || c == '\n' }

  predicate SeparatorFree(s: string) { forall i :: 0 <= i < |s| ==> !IsSeparator(s[i]) }

  function TokenEnd(s: string): (i: nat)
    ensures i <= |s| && SeparatorFree(s[..i])
    ensures i < |s| ==> IsSeparator(s[i])
  {
    if s == "" || IsSeparator(s[0]) then 0
    else
      var i := TokenEnd(s[1..]) + 1;
      assert s[..i] == [s[0]] + s[1..][..i - 1];
      i
  }

  function SkipSeparators(s: string): string {
    if s != "" && IsSeparator(s[0]) then SkipSeparators(s[1..]) else s
  }

  // QTextStream::readLine on the bytes that have arrived.
  function FirstLine(text: string): string {
    var line := text[..IndexOf(text, '\n')];
    if line != "" && line[|line| - 1] == '\r' then line[..|line| - 1] else line
  }

  // OutOfRange: the line is the bare word GET, and the second token is read
  // although there is none.
  datatype Parsed = Other | OutOfRange | Get(task: string, command: string)

  function ParseLine(line: string): Parsed {
    var end := TokenEnd(line);
    if line[..end] != "GET" then Other
    else if end == |line| then OutOfRange
    else
      var rest := SkipSeparators(line[end..]);
      var path := rest[..TokenEnd(rest)];
      Get(Section(path, '/', 1), Section(path, '/', 2))
  }

  function Parse(text: string): Parsed { ParseLine(FirstLine(text)) }

  function LoginOf(command: string): string { Section(Section(command, '=', 1), '&', 0) }

  function PasswordOf(command: string): string { Section(command, '=', 2) }

  // ---------- the client's side ----------

  function RequestLine(path: string): string { "GET" + [' '] + (path + [' '] + "HTTP/1.1") }

  function Headers(host: string): string {
    "Host: " + host + "\r\n" + "Accept: text/html\r\n" + "Accept-Language: ru-RU\r\n"
    + "Connection: Keep-Alive\r\n\r\n"
  }

  function RequestText(path: string, host: string): string {
    RequestLine(path) + ['\r'] + ['\n'] + Headers(host)
  }

  function LoginCommand(login: string, hash: string): string { "login=" + login + "&password=" + hash }

  function Path(task: string, command: string): string { ['/'] + (task + ['/'] + command) }

  function LoginText(login: string, hash: string, host: string): string {
    RequestText(Path("authorization", LoginCommand(login, hash)), host)
  }

  function MessageText(message: string, host: string): string {
    RequestText(Path("message", message), host)
  }

  // What the login may hold for the server to see it as it was typed.
  predicate Plain(s: string) {
    SeparatorFree(s) && '/' !in s && '=' !in s && '&' !in s
  }

  predicate HexDigits(s: string) {
    forall i :: 0 <= i < |s| ==> '0' <= s[i] <= '9' || 'a' <= s[i] <= 'f'
  }

  // ---------- reading a request line ----------

  lemma {:induction false} TokenAt(a: string, c: char, rest: string)
    requires SeparatorFree(a) && IsSeparator(c)
    ensures TokenEnd(a + [c] + rest) == |a|
    ensures TokenEnd(a) == |a|
  {
    if a != "" {
      assert (a + [c] + rest)[0] == a[0];
      assert (a + [c] + rest)[1..] == a[1..] + [c] + rest;
      TokenAt(a[1..], c, rest);
    }
  }

  lemma TwoTokens(a: string, path: string, version: string)
    requires SeparatorFree(a) && path != "" && SeparatorFree(path)
    ensures var line, rest := a + [' '] + (path + [' '] + version), path + [' '] + version;
            && TokenEnd(line) == |a| < |line| && line[..|a|] == a
            && SkipSeparators(line[|a|..]) == rest && rest[..TokenEnd(rest)] == path
  {
    var rest := path + [' '] + version;
    var line := a + [' '] + rest;
    TokenAt(a, ' ', rest);
    TokenAt(path, ' ', version);
    var tail := [' '] + rest;
    assert line[|a|..] == tail && tail[1..] == rest && tail[0] == ' ';
    assert rest[0] == path[0];
    assert SkipSeparators(rest) == rest;
    assert SkipSeparators(tail) == SkipSeparators(tail[1..]);
  }

  lemma ParsePath(path: string)
    requires path != "" && SeparatorFree(path)
    ensures ParseLine(RequestLine(path)) == Get(Section(path, '/', 1), Section(path, '/', 2))
  {
    assert SeparatorFree("GET");
    TwoTokens("GET", path, "HTTP/1.1");
  }

  lemma {:induction false} GapSkipped(gap: string, rest: string)
    requires (forall c :: c in gap ==> IsSeparator(c)) && rest != "" && !IsSeparator(rest[0])
    ensures SkipSeparators(gap + rest) == rest
  {
    if gap == "" {
      assert "" + rest == rest;
    } else {
      GapSkipped(gap[1..], rest);
      assert (gap + rest)[1..] == gap[1..] + rest;
    }
  }

  // However many blanks are between the words, task and command are the fields of the
  // second word behind its first and its second slash.
  lemma AnyGap(gap: string, path: string, version: string)
    requires gap != "" && path != "" && forall c :: c in gap ==> c == ' ' || c == '\r' || c == '\n'
    requires forall c :: c in path ==> c != ' ' && c != '\r' && c != '\n'
    ensures ParseLine("GET" + gap + (path + [' '] + version)) == Get(Section(path, '/', 1), Section(path, '/', 2))
  {
    var rest := path + [' '] + version;
    var line := "GET" + [gap[0]] + (gap[1..] + rest);
    assert gap[0] in gap && forall i :: 0 <= i < |path| ==> path[i] in path;
    assert line == "GET" + gap + rest && SeparatorFree("GET");
    TokenAt("GET", gap[0], gap[1..] + rest);
    TokenAt(path, ' ', version);
    assert rest[0] == path[0] && rest[..|path|] == path;
    GapSkipped(gap, rest);
    assert line[..3] == "GET" && line[3..] == gap + rest;
  }

  lemma FirstLineOf(line: string, rest: string)
    requires '\n' !in line
    ensures FirstLine(line + ['\r'] + ['\n'] + rest) == line
  {
    var ended := line + ['\r'];
    IndexAfter(ended, '\n', rest);
    assert (ended + ['\n'] + rest)[..|ended|] == ended;
    assert ended[..|line|] == line;
  }

  lemma ParseRequest(path: string, host: string)
    requires path != "" && SeparatorFree(path)
    ensures Parse(RequestText(path, host)) == Get(Section(path, '/', 1), Section(path, '/', 2))
  {
    var line := RequestLine(path);
    assert '\n' !in "GET" && '\n' !in "HTTP/1.1" && '\n' !in path;
    FirstLineOf(line, Headers(host));
    ParsePath(path);
  }

  lemma PathSections(task: string, command: string)
    requires '/' !in task
    ensures Section(Path(task, command), '/', 1) == task
    ensures Section(Path(task, command), '/', 2) == Section(command, '/', 0)
  {
    var rest := task + ['/'] + command;
    assert [] + ['/'] + rest == Path(task, command);
    SectionStep([], '/', rest, 0);
    SectionStep([], '/', rest, 1);
    SectionStep(task, '/', command, 0);
  }

  lemma PathWellFormed(task: string, command: string)
    requires SeparatorFree(task) && SeparatorFree(command)
    ensures Path(task, command) != "" && SeparatorFree(Path(task, command))
  {}

  lemma ParseTask(task: string, command: string, host: string)
    requires '/' !in task && SeparatorFree(task) && SeparatorFree(command)
    ensures Parse(RequestText(Path(task, command), host)) == Get(task, Section(command, '/', 0))
  {
    PathWellFormed(task, command);
    PathSections(task, command);
    ParseRequest(Path(task, command), host);
  }

  // Whatever the client types, a login request asks for authorisation and a
  // message request delivers a message.
  lemma LoginTask(login: string, hash: string, host: string)
    requires SeparatorFree(login) && HexDigits(hash)
    ensures Parse(LoginText(login, hash, host)) == Get("authorization", Section(LoginCommand(login, hash), '/', 0))
  {
    assert SeparatorFree("login=") && SeparatorFree("&password=") && SeparatorFree(hash);
    assert SeparatorFree(LoginCommand(login, hash));
    assert SeparatorFree("authorization") && '/' !in "authorization";
    ParseTask("authorization", LoginCommand(login, hash), host);
  }

  lemma MessageTask(message: string, host: string)
    requires SeparatorFree(message)
    ensures Parse(MessageText(message, host)) == Get("message", Section(message, '/', 0))
  {
    assert SeparatorFree("message") && '/' !in "message";
    ParseTask("message", message, host);
  }

  // What goes over the wire, character by character: the request line, three headers,
  // and an empty line.
  lemma RequestBytes(path: string, host: string)
    ensures RequestText(path, host) == "GET " + path + " HTTP/1.1\r\n" + Headers(host)
  {
    assert "GET" + [' '] == "GET " && [' '] + "HTTP/1.1" + ['\r'] + ['\n'] == " HTTP/1.1\r\n";
    assert "GET" + [' '] + (path + [' '] + "HTTP/1.1") + ['\r'] + ['\n']
        == "GET " + path + ([' '] + "HTTP/1.1" + ['\r'] + ['\n']);
  }

  lemma LoginBytes(login: string, hash: string, host: string)
    ensures LoginText(login, hash, host)
            == "GET /authorization/login=" + login + "&password=" + hash + " HTTP/1.1\r\n"
               + ("Host: " + host + "\r\n" + "Accept: text/html\r\n" + "Accept-Language: ru-RU\r\n"
                  + "Connection: Keep-Alive\r\n\r\n")
  {
    var path := Path("authorization", LoginCommand(login, hash));
    RequestBytes(path, host);
    assert "GET " + (['/'] + ("authorization" + ['/'] + "login=")) == "GET /authorization/login=";
    assert path == ['/'] + ("authorization" + ['/'] + "login=") + (login + "&password=" + hash);
    assert "GET " + path == "GET /authorization/login=" + login + "&password=" + hash;
  }

  lemma MessageBytes(message: string, host: string)
    ensures MessageText(message, host)
            == "GET /message/" + message + " HTTP/1.1\r\n"
               + ("Host: " + host + "\r\n" + "Accept: text/html\r\n" + "Accept-Language: ru-RU\r\n"
                  + "Connection: Keep-Alive\r\n\r\n")
  {
    var path := Path("message", message);
    RequestBytes(path, host);
    assert "GET " + (['/'] + ("message" + ['/'])) == "GET /message/";
    assert path == ['/'] + ("message" + ['/']) + message;
    assert "GET " + path == "GET /message/" + message;
  }

  // ---------- a request cut short ----------

  lemma FirstLineCut(line: string, rest: string, k: nat)
    requires '\n' !in line && '\r' !in line && k <= |line| + 2 + |rest|
    ensures FirstLine((line + ['\r'] + ['\n'] + rest)[..k]) == line[..Min(k, |line|)]
  {
    var text := line + ['\r'] + ['\n'] + rest;
    if k <= |line| + 1 {
      var cut := if k <= |line| then line[..k] else line + ['\r'];
      assert text[..k] == cut && '\n' !in cut;
      assert cut[..IndexOf(cut, '\n')] == cut;
      assert k > |line| ==> cut[..|line|] == line;
    } else {
      assert text[..k] == line + ['\r'] + ['\n'] + rest[..k - |line| - 2];
      FirstLineOf(line, rest[..k - |line| - 2]);
    }
  }

  lemma TokenCut(path: string, n: nat)
    requires SeparatorFree(path) && n <= |path| + 1 + |"HTTP/1.1"|
    ensures var rest := (path + [' '] + "HTTP/1.1")[..n]; rest[..TokenEnd(rest)] == path[..Min(n, |path|)]
  {
    var rest := (path + [' '] + "HTTP/1.1")[..n];
    if n <= |path| {
      assert rest == path[..n];
      TokenAt(rest, ' ', "");
    } else {
      var tail := "HTTP/1.1"[..n - |path| - 1];
      assert rest == path + [' '] + tail;
      TokenAt(path, ' ', tail);
      assert rest[..|path|] == path == path[..|path|];
    }
  }

  lemma PathCut(path: string, n: nat)
    requires path != "" && SeparatorFree(path) && n <= |path| + 1 + |"HTTP/1.1"|
    ensures var p := path[..Min(n, |path|)];
            ParseLine("GET" + [' '] + (path + [' '] + "HTTP/1.1")[..n]) == Get(Section(p, '/', 1), Section(p, '/', 2))
  {
    var rest := (path + [' '] + "HTTP/1.1")[..n];
    var line := "GET" + [' '] + rest;
    assert SeparatorFree("GET");
    TokenAt("GET", ' ', rest);
    assert line[..3] == "GET" && line[3..] == [' '] + rest && ([' '] + rest)[1..] == rest;
    assert rest != "" ==> rest[0] == path[0];
    assert SkipSeparators([' '] + rest) == SkipSeparators(rest) == rest;
    TokenCut(path, n);
  }

  lemma LineOneLine(path: string)
    requires SeparatorFree(path)
    ensures '\n' !in RequestLine(path) && '\r' !in RequestLine(path)
  {
    assert forall c :: c in RequestLine(path) ==> c in "GET" || c == ' ' || c in path || c in "HTTP/1.1";
  }

  lemma LineCut(path: string, j: nat)
    requires path != "" && SeparatorFree(path) && j <= |RequestLine(path)|
    ensures ParseLine(RequestLine(path)[..j])
            == if j < 3 then Other
               else if j == 3 then OutOfRange
               else var p := path[..Min(j - 4, |path|)]; Get(Section(p, '/', 1), Section(p, '/', 2))
  {
    var line := RequestLine(path);
    if j <= 3 {
      assert line[..j] == "GET"[..j] && SeparatorFree("GET"[..j]);
      TokenAt("GET"[..j], ' ', "");
      assert "GET"[..3] == "GET";
    } else {
      assert line[..j] == "GET" + [' '] + (path + [' '] + "HTTP/1.1")[..j - 4];
      PathCut(path, j - 4);
    }
  }

  lemma ParseCut(path: string, host: string, k: nat)
    requires path != "" && SeparatorFree(path) && k <= |RequestText(path, host)|
    ensures Parse(RequestText(path, host)[..k]) == ParseLine(RequestLine(path)[..Min(k, |RequestLine(path)|)])
  {
    LineOneLine(path);
    FirstLineCut(RequestLine(path), Headers(host), k);
  }

  lemma TaskCut(task: string, command: string, n: nat)
    requires task != "" && '/' !in task && n <= |Path(task, command)|
    ensures Section(Path(task, command)[..n], '/', 1) == task <==> n > |task|
  {
    var p := Path(task, command)[..n];
    if n > |task| + 1 {
      assert p == Path(task, command[..n - |task| - 2]);
      PathSections(task, command[..n - |task| - 2]);
    } else if n > 0 {
      assert p == [] + ['/'] + task[..n - 1];
      SectionStep([], '/', task[..n - 1], 0);
      SectionStep(task[..n - 1], '/', "", 0);
      assert n > |task| ==> task[..n - 1] == task;
    } else {
      SectionStep([], '/', "", 0);
    }
  }

  // The first k bytes of a request ask for what the whole asks for exactly when
  // they contain its whole task word.
  lemma CutTaskIff(task: string, command: string, host: string, k: nat)
    requires task != "" && '/' !in task && SeparatorFree(task) && SeparatorFree(command)
    requires k <= |RequestText(Path(task, command), host)|
    ensures var r := Parse(RequestText(Path(task, command), host)[..k]);
            r.Get? && r.task == task <==> k >= |"GET /"| + |task|
  {
    PathWellFormed(task, command);
    ParseCut(Path(task, command), host, k);
    LineCut(Path(task, command), Min(k, |RequestLine(Path(task, command))|));
    if k >= 4 {
      TaskCut(task, command, Min(k - 4, |Path(task, command)|));
    }
  }

  // A message arrives as typed exactly when it holds no slash.
  lemma MessageRoundTripIff(message: string, host: string)
    requires SeparatorFree(message)
    ensures Parse(MessageText(message, host)) == Get("message", message) <==> '/' !in message
  {
    MessageTask(message, host);
    SectionClean(message, '/', 0);
    if '/' !in message { SectionStep(message, '/', "", 0); }
  }

  // The login and the password hash are read back exactly when the login is plain.
  lemma LoginRoundTripIff(login: string, hash: string, host: string)
    requires SeparatorFree(login) && HexDigits(hash)
    ensures var k := Parse(LoginText(login, hash, host));
            k.Get? && LoginOf(k.command) == login && PasswordOf(k.command) == hash <==> Plain(login)
  {
    LoginTask(login, hash, host);
    var all := LoginCommand(login, hash);
    var command := Section(all, '/', 0);
    SectionClean(all, '/', 0);
    SectionClean(command, '=', 1);
    SectionClean(Section(command, '=', 1), '&', 0);
    if Plain(login) {
      assert '/' !in "login=" && '/' !in "&password=" && '/' !in hash;
      SectionStep(all, '/', "", 0);
      assert command == all;
      LoginFields(login, hash);
    }
  }

  lemma LoginFields(login: string, hash: string)
    requires '=' !in login && '&' !in login && HexDigits(hash)
    ensures LoginOf(LoginCommand(login, hash)) == login && PasswordOf(LoginCommand(login, hash)) == hash
  {
    var middle := login + ['&'] + "password";
    var rest := middle + ['='] + hash;
    assert LoginCommand(login, hash) == "login" + ['='] + rest;
    assert '=' !in "login" && '=' !in "password" && '=' !in hash;
    SectionStep("login", '=', rest, 0);
    SectionStep("login", '=', rest, 1);
    SectionStep(middle, '=', hash, 0);
    SectionStep(hash, '=', "", 0);
    SectionStep(login, '&', "password", 0);
  }
}

module SessionServer {
  import opened QtText
  import opened RequestCodec

  // The record kept for the connected client.
  datatype Session = Session(authorised: bool, login: string, password: string)

  const NEW_SESSION := Session(false, "", "")

  // Silent: no reply is sent. Undefined: the token list was read past its end.
  datatype Reply = Silent | Undefined | Code(code: nat)

  type Users = seq<(string, string)>

  function RespondTo(users: Users, s: Session, request: Parsed): (Session, Reply) {
    match request
    case Other => (s, Silent)
    case OutOfRange => (s, Undefined)
    case Get(task, command) =>
      if s.authorised then (s, Code(if task == "message" then 200 else 400))
      else if task != "authorization" then (s, Code(400))
      else
        var pair := (LoginOf(command), PasswordOf(command));
        (Session(pair in users, pair.0, pair.1), Code(if pair in users then 200 else 401))
  }

  // slotReadyRequest on the bytes that have arrived.
  function Respond(users: Users, s: Session, text: string): (Session, Reply) {
    RespondTo(users, s, Parse(text))
  }

  // Requests that arrive together are read together, and only the first line is
  // looked at: a second request in the same read gets no reply of its own.
  lemma OnlyFirstRequestCounts(users: Users, s: Session, first: string, second: string)
    requires '\n' in first
    ensures Respond(users, s, first + second) == Respond(users, s, first)
  {
    IndexInside(first, '\n', second);
    var i := IndexOf(first, '\n');
    assert (first + second)[..i] == first[..i];
  }

  // ---------- the replies, request by request ----------

  lemma AskedFor(task: string, command: string, text: string, rest: string)
    requires '/' !in task && SeparatorFree(task) && SeparatorFree(command) && '/' !in command
    requires text == RequestLine(Path(task, command)) + ['\r'] + ['\n'] + rest
    ensures Parse(text) == Get(task, command)
  {
    var path := Path(task, command);
    PathWellFormed(task, command);
    PathSections(task, command);
    SectionStep(command, '/', "", 0);
    assert '\n' !in "GET" && '\n' !in "HTTP/1.1" && '\n' !in path;
    FirstLineOf(RequestLine(path), rest);
    ParsePath(path);
  }

  // Once authorised, a message is accepted and anything else is a bad request, a
  // second login too; before, everything but a login is one. Whatever follows the
  // first line does not matter.
  lemma ReplyToTask(users: Users, s: Session, task: string, command: string, text: string, rest: string)
    requires '/' !in task && SeparatorFree(task) && SeparatorFree(command) && '/' !in command
    requires text == RequestLine(Path(task, command)) + ['\r'] + ['\n'] + rest
    ensures s.authorised && task == "message" ==> Respond(users, s, text) == (s, Code(200))
    ensures s.authorised && task != "message" ==> Respond(users, s, text) == (s, Code(400))
    ensures !s.authorised && task != "authorization" ==> Respond(users, s, text) == (s, Code(400))
  {
    AskedFor(task, command, text, rest);
  }

  // A login with a plain name is answered 200 exactly if name and hash are in the
  // list, and 401 otherwise; either way they are remembered.
  lemma ReplyToLogin(users: Users, s: Session, login: string, hash: string, host: string)
    requires !s.authorised && Plain(login) && HexDigits(hash)
    ensures Respond(users, s, LoginText(login, hash, host))
            == if (login, hash) in users then (Session(true, login, hash), Code(200))
               else (Session(false, login, hash), Code(401))
  {
    LoginTask(login, hash, host);
    LoginRoundTripIff(login, hash, host);
  }

  // No answer to a first word other than GET; the bare word GET is not handled.
  lemma ReplyToOther(users: Users, s: Session, word: string, more: string, rest: string)
    requires SeparatorFree(word) && '\n' !in more
    ensures word != "GET" ==> Respond(users, s, word + [' '] + more + ['\r'] + ['\n'] + rest) == (s, Silent)
    ensures Respond(users, s, "GET" + ['\r'] + ['\n'] + rest) == (s, Undefined)
  {
    FirstLineOf(word + [' '] + more, rest);
    TokenAt(word, ' ', more);
    assert (word + [' '] + more)[..|word|] == word;
    assert SeparatorFree("GET") && '\n' !in "GET";
    FirstLineOf("GET", rest);
    TokenAt("GET", ' ', "");
    assert "GET"[..3] == "GET";
  }

  class ClientRecord {
    var isAutorization: bool
    var login: string
    var password: string

    constructor ()
      ensures State() == NEW_SESSION
    {
      isAutorization, login, password := false, "", "";
    }

    function State(): Session
      reads this
    {
      Session(isAutorization, login, password)
    }
  }

  class ThisServer {
    const users: Users
    var sslClient: ClientRecord

    constructor (users: Users)
      ensures this.users == users && fresh(sslClient) && sslClient.State() == NEW_SESSION
    {
      this.users := users;
      sslClient := new ClientRecord();
    }

    // The record of the previous client is replaced.
    method IncomingConnection()
      modifies this
      ensures fresh(sslClient) && sslClient.State() == NEW_SESSION
    {
      sslClient := new ClientRecord();
    }

    method SlotReadyRequest(text: string) returns (reply: Reply)
      modifies sslClient
      ensures (sslClient.State(), reply) == Respond(users, old(sslClient.State()), text)
    {
      match Parse(text) {
        case Other => return Silent;
        case OutOfRange => return Undefined;
        case Get(task, command) =>
          if !sslClient.isAutorization {
            if task == "authorization" {
              var found := Authorise(command);
              return Code(if found then 200 else 401);
            } else {
              return Code(400);
            }
          } else {
            if task == "message" { return Code(200); } else { return Code(400); }
          }
      }
    }

    // The login branch: remember the pair, then look for it among the users.
    method Authorise(command: string) returns (found: bool)
      requires !sslClient.isAutorization
      modifies sslClient
      ensures var pair := (LoginOf(command), PasswordOf(command));
              found == (pair in users) && sslClient.State() == Session(found, pair.0, pair.1)
    {
      var str := Section(command, '=', 1);
      sslClient.login := Section(str, '&', 0);
      sslClient.password := Section(command, '=', 2);
      for it := 0 to |users|
        invariant !sslClient.isAutorization
        invariant sslClient.login == LoginOf(command) && sslClient.password == PasswordOf(command)
        invariant forall i :: 0 <= i < it ==> users[i] != (LoginOf(command), PasswordOf(command))
      {
        if users[it].0 == sslClient.login && users[it].1 == sslClient.password {
          sslClient.isAutorization := true;
          return true;
        }
      }
      return false;
    }
  }

  // ---------- every run of the server ----------

  datatype Entry =
    | LoggedIn(conn: nat, login: string, password: string)
    | Accepted(conn: nat, message: string)
    | Refused(conn: nat, code: nat)

  // Connections are numbered as they come in; `arrived` are the unread bytes of each.
  datatype Server = Server(newest: nat, session: Session, arrived: map<nat, string>, log: seq<Entry>)

  datatype Event = Connect | Arrive(conn: nat, text: string) | ReadyRead(conn: nat)

  const IDLE := Server(0, NEW_SESSION, map[], [])

  function Record(conn: nat, users: Users, s: Session, text: string): seq<Entry> {
    var (after, reply) := Respond(users, s, text);
    match reply
    case Code(200) =>
      if s.authorised then [Accepted(conn, Parse(text).command)]
      else [LoggedIn(conn, after.login, after.password)]
    case Code(c) => [Refused(conn, c)]
    case _ => []
  }

  // Whichever socket announces bytes, the slot reads the newest client's.
  function Step(users: Users, w: Server, e: Event): Server {
    match e
    case Connect =>
      w.(newest := w.newest + 1, session := NEW_SESSION, arrived := w.arrived[w.newest + 1 := ""])
    case Arrive(conn, text) =>
      if conn in w.arrived then w.(arrived := w.arrived[conn := w.arrived[conn] + text]) else w
    case ReadyRead(conn) =>
      if conn !in w.arrived || w.newest !in w.arrived then w
      else
        var text := w.arrived[w.newest];
        w.(session := Respond(users, w.session, text).0, arrived := w.arrived[w.newest := ""],
           log := w.log + Record(w.newest, users, w.session, text))
  }

  function Exec(users: Users, events: seq<Event>): Server {
    if events == [] then IDLE
    else Step(users, Exec(users, events[..|events| - 1]), events[|events| - 1])
  }

  ghost predicate LoginBefore(users: Users, log: seq<Entry>, n: nat, conn: nat) {
    exists j :: 0 <= j < n && j < |log| && log[j].LoggedIn? && log[j].conn == conn
                && (log[j].login, log[j].password) in users
  }

  ghost predicate LogSafe(users: Users, log: seq<Entry>, newest: nat) {
    && (forall i :: 0 <= i < |log| && log[i].Accepted? ==> LoginBefore(users, log, i, log[i].conn))
    && (forall i :: 0 <= i < |log| && log[i].LoggedIn? ==> (log[i].login, log[i].password) in users)
    && (forall i :: 0 <= i < |log| ==> log[i].conn <= newest)
    && (forall i, j :: 0 <= i < j < |log| ==> log[i].conn <= log[j].conn)
  }

  ghost predicate Safe(users: Users, w: Server) {
    && (w.session.authorised ==> LoginBefore(users, w.log, |w.log|, w.newest))
    && LogSafe(users, w.log, w.newest)
  }

  lemma LoginStays(users: Users, log: seq<Entry>, more: seq<Entry>, n: nat, conn: nat)
    requires n <= |log| && LoginBefore(users, log, n, conn)
    ensures LoginBefore(users, log + more, n, conn) && LoginBefore(users, log + more, |log + more|, conn)
  {
    var j :| 0 <= j < n && j < |log| && log[j].LoggedIn? && log[j].conn == conn
             && (log[j].login, log[j].password) in users;
    assert (log + more)[j] == log[j];
  }

  lemma AppendSafe(users: Users, log: seq<Entry>, newest: nat, x: Entry)
    requires LogSafe(users, log, newest) && x.conn == newest
    requires x.Accepted? ==> LoginBefore(users, log, |log|, newest)
    requires x.LoggedIn? ==> (x.login, x.password) in users
    ensures LogSafe(users, log + [x], newest)
  {
    forall i | 0 <= i <= |log| && (log + [x])[i].Accepted?
      ensures LoginBefore(users, log + [x], i, (log + [x])[i].conn)
    {
      LoginStays(users, log, [x], i, (log + [x])[i].conn);
    }
  }

  lemma ReadSafe(users: Users, w: Server, e: Event)
    requires Safe(users, w) && e.ReadyRead? && e.conn in w.arrived && w.newest in w.arrived
    ensures Safe(users, Step(users, w, e))
  {
    var w' := Step(users, w, e);
    var more := Record(w.newest, users, w.session, w.arrived[w.newest]);
    if more == [] {
      assert w.log + more == w.log;
    } else {
      assert w'.log == w.log + [more[0]];
      AppendSafe(users, w.log, w.newest, more[0]);
      if w.session.authorised {
        LoginStays(users, w.log, more, |w.log|, w.newest);
      } else if w'.session.authorised {
        assert w'.log[|w.log|] == more[0] && more[0].LoggedIn?;
      }
    }
  }

  // In every run: a message is accepted only after a login on the same connection
  // with a pair from the user list, and once a newer client has connected nothing
  // is ever accepted, or even answered, for an older one.
  lemma {:induction false} SessionSafety(users: Users, events: seq<Event>)
    ensures Safe(users, Exec(users, events))
  {
    if events != [] {
      var w, e := Exec(users, events[..|events| - 1]), events[|events| - 1];
      SessionSafety(users, events[..|events| - 1]);
      if e.ReadyRead? && e.conn in w.arrived && w.newest in w.arrived {
        ReadSafe(users, w, e);
      }
    }
  }

  // ---------- what a signal leaves in the log, entry by entry ----------

  // Two pieces that have arrived are read as one text, and once.
  lemma PiecesReadTogether(users: Users, w: Server, conn: nat, a: string, b: string)
    requires conn in w.arrived && w.newest in w.arrived && w.arrived[w.newest] == ""
    ensures var arrived := Step(users, Step(users, w, Arrive(w.newest, a)), Arrive(w.newest, b));
            var read := Step(users, arrived, ReadyRead(conn));
            && read.session == Respond(users, w.session, a + b).0
            && read.newest == w.newest && read.arrived == w.arrived && w.log <= read.log
  {
    ReadOnce(users, w.(arrived := w.arrived[w.newest := "" + a + b]), conn);
    assert "" + a + b == a + b && w.arrived[w.newest := ""] == w.arrived;
  }

  lemma ReadOnce(users: Users, w: Server, conn: nat)
    requires conn in w.arrived && w.newest in w.arrived
    ensures var read := Step(users, w, ReadyRead(conn));
            && read.session == Respond(users, w.session, w.arrived[w.newest]).0
            && read.newest == w.newest && read.arrived == w.arrived[w.newest := ""] && w.log <= read.log
  {}

  // A message accepted is logged as it was sent, a refusal with its code; the bytes
  // read are gone, whichever socket announced them.
  lemma TaskLogged(users: Users, w: Server, conn: nat, task: string, command: string, text: string, rest: string)
    requires '/' !in task && SeparatorFree(task) && SeparatorFree(command) && '/' !in command
    requires text == RequestLine(Path(task, command)) + ['\r'] + ['\n'] + rest
    requires conn in w.arrived && w.newest in w.arrived && w.arrived[w.newest] == text
    requires w.session.authorised || task != "authorization"
    ensures Step(users, w, ReadyRead(conn))
            == w.(arrived := w.arrived[w.newest := ""],
                  log := w.log + [if w.session.authorised && task == "message" then Accepted(w.newest, command)
                                  else Refused(w.newest, 400)])
  {
    AskedFor(task, command, text, rest);
  }

  // A login is logged with its name and hash exactly if they are listed.
  lemma LoginLogged(users: Users, w: Server, conn: nat, login: string, hash: string, host: string)
    requires !w.session.authorised && Plain(login) && HexDigits(hash)
    requires conn in w.arrived && w.newest in w.arrived && w.arrived[w.newest] == LoginText(login, hash, host)
    ensures Step(users, w, ReadyRead(conn))
            == w.(arrived := w.arrived[w.newest := ""], session := Session((login, hash) in users, login, hash),
                  log := w.log + [if (login, hash) in users then LoggedIn(w.newest, login, hash)
                                  else Refused(w.newest, 401)])
  {
    ReplyToLogin(users, w.session, login, hash, host);
  }

  // Within one connection authorisation is never lost, and a new one has none.
  lemma AuthorisationLasts(users: Users, w: Server, e: Event)
    ensures Step(users, w, e).newest == w.newest && w.session.authorised ==>
              Step(users, w, e).session == w.session
    ensures Step(users, w, e).newest != w.newest ==> !Step(users, w, e).session.authorised
  {}
}

module SessionPair {
  import opened RequestCodec
  import opened SessionServer

  // What the user types when asked.
  datatype Typed = Typed(login: string, hash: string, message: string)

  // Words of a text stream, of the lengths the prompts insist on; the password
  // is hashed to hex digits before it is used.
  predicate Acceptable(t: Typed) {
    && SeparatorFree(t.login) && |t.login| >= 4
    && HexDigits(t.hash)
    && SeparatorFree(t.message) && |t.message| >= 1
  }

  // `slots` is how often the socket's readyRead signal is connected to the
  // reading slot; `written` is every block handed to the socket.
  datatype Client = Client(request: string, slots: nat, timerOn: bool, closed: bool, written: seq<string>)

  const NEW_CLIENT := Client("", 0, false, false, [])

  function Write(c: Client): Client { c.(written := c.written + [c.request], timerOn := true) }

  function NewConnection(c: Client, t: Typed, host: string): Client {
    Write(c.(request := c.request + LoginText(t.login, t.hash, host), slots := c.slots + 1))
  }

  function SendMessage(c: Client, t: Typed, host: string): Client {
    Write(c.(request := c.request + MessageText(t.message, host)))
  }

  // slotReadResponce; code 0 is what an empty read gives.
  function ReadResponse(c: Client, code: nat, t: Typed, host: string): Client {
    var cleared := c.(timerOn := false, request := "");
    if code == 200 then SendMessage(cleared, t, host)
    else if code == 401 then NewConnection(cleared, t, host)
    else if code == 400 then cleared.(closed := true)
    else cleared
  }

  function EmptyReads(c: Client, n: nat, t: Typed, host: string): Client {
    if n == 0 then c else ReadResponse(EmptyReads(c, n - 1, t, host), 0, t, host)
  }

  // One signal runs the slot once per connection; the first run takes the bytes.
  function OnReadyRead(c: Client, code: nat, t: Typed, host: string): Client {
    if c.slots == 0 then c
    else
      var first := ReadResponse(c, code, t, host);
      if first.closed then first else EmptyReads(first, c.slots - 1, t, host)
  }

  lemma {:induction false} EmptyReadsOnlyClear(c: Client, n: nat, t: Typed, host: string)
    ensures EmptyReads(c, n, t, host) == if n == 0 then c else c.(timerOn := false, request := "")
  {
    if n > 0 { EmptyReadsOnlyClear(c, n - 1, t, host); }
  }

  class ClientObject {
    const hostName: string
    var request: string
    var slots: nat
    var timerOn: bool
    var closed: bool
    var written: seq<string>

    constructor (hostName: string)
      ensures State() == NEW_CLIENT && this.hostName == hostName
    {
      this.hostName, request, slots, timerOn, closed, written := hostName, "", 0, false, false, [];
    }

    function State(): Client
      reads this
    {
      Client(request, slots, timerOn, closed, written)
    }

    method SlotRepeatRequest()
      modifies `written, `timerOn
      ensures State() == Write(old(State()))
    {
      written := written + [request];
      timerOn := true;
    }

    method SlotNewConnection(t: Typed)
      modifies this
      ensures State() == NewConnection(old(State()), t, hostName)
    {
      request := request + LoginText(t.login, t.hash, hostName);
      slots := slots + 1;
      SlotRepeatRequest();
    }

    method SendAMessage(t: Typed)
      modifies this
      ensures State() == SendMessage(old(State()), t, hostName)
    {
      request := request + MessageText(t.message, hostName);
      SlotRepeatRequest();
    }

    method SlotReadResponse(code: nat, t: Typed)
      modifies this
      ensures State() == ReadResponse(old(State()), code, t, hostName)
    {
      timerOn := false;
      request := "";
      if code == 200 {
        SendAMessage(t);
      } else if code == 401 {
        SlotNewConnection(t);
      } else if code == 400 {
        closed := true;
      }
    }

    // The signal, delivered to every connection made before it was raised.
    method ReadyRead(code: nat, t: Typed)
      modifies this
      ensures State() == OnReadyRead(old(State()), code, t, hostName)
    {
      var n := slots;
      if n == 0 { return; }
      SlotReadResponse(code, t);
      if closed { return; }
      ghost var first := State();
      for i := 1 to n
        invariant State() == EmptyReads(first, i - 1, t, hostName)
      {
        SlotReadResponse(0, t);
      }
    }
  }

  // ---------- the two sides together ----------

  // Bytes on their way to the server, response codes on their way back.
  datatype Pair = Pair(client: Client, server: Session, toServer: string, toClient: seq<nat>, serverTimer: bool)

  datatype Event =
    | Start(typed: Typed)
    | ServerReads
    | ClientReads(typed: Typed)
    | ClientTimeout
    | ServerTimeout

  const BEGIN := Pair(NEW_CLIENT, NEW_SESSION, "", [], false)

  // Blocks the client has written since `before` are on their way.
  function Sent(before: Client, after: Client): string
    requires before.written <= after.written
  {
    Joined(after.written[|before.written|..])
  }

  function Joined(blocks: seq<string>): string {
    if blocks == [] then "" else blocks[0] + Joined(blocks[1..])
  }

  lemma {:induction false} WrittenGrows(c: Client, code: nat, t: Typed, host: string)
    ensures c.written <= OnReadyRead(c, code, t, host).written
    ensures c.written <= NewConnection(c, t, host).written
  {
    if c.slots > 0 {
      EmptyReadsOnlyClear(ReadResponse(c, code, t, host), c.slots - 1, t, host);
    }
  }

  function Step(users: Users, host: string, p: Pair, e: Event): Pair {
    if p.client.closed then p
    else match e
      case Start(t) =>
        if p.client.slots > 0 || !Acceptable(t) then p
        else
          WrittenGrows(p.client, 0, t, host);
          var c := NewConnection(p.client, t, host);
          p.(client := c, toServer := p.toServer + Sent(p.client, c))
      case ServerReads =>
        if p.toServer == "" then p
        else
          var (s, reply) := Respond(users, p.server, p.toServer);
          p.(server := s, toServer := "",
             toClient := p.toClient + (if reply.Code? then [reply.code] else []), serverTimer := reply.Code?)
      case ClientReads(t) =>
        if p.toClient == [] || !Acceptable(t) then p
        else
          WrittenGrows(p.client, p.toClient[0], t, host);
          var c := OnReadyRead(p.client, p.toClient[0], t, host);
          p.(client := c, toClient := [], toServer := p.toServer + Sent(p.client, c))
      case ClientTimeout =>
        if p.client.timerOn then p.(client := p.client.(closed := true)) else p
      case ServerTimeout =>
        if p.serverTimer then p.(client := p.client.(closed := true)) else p
  }

  function Exec(users: Users, host: string, events: seq<Event>): Pair {
    if events == [] then BEGIN
    else Step(users, host, Exec(users, host, events[..|events| - 1]), events[|events| - 1])
  }

  ghost predicate IsLogin(text: string, host: string) {
    exists t :: Acceptable(t) && text == LoginText(t.login, t.hash, host)
  }

  ghost predicate IsMessage(text: string, host: string) {
    exists t :: Acceptable(t) && text == MessageText(t.message, host)
  }

  function LastWritten(c: Client): string {
    if c.written == [] then "" else c.written[|c.written| - 1]
  }

  // One request or one response is in flight, never both; 400 is never on its way.
  ghost predicate TurnsTaken(p: Pair) {
    && |p.toClient| <= 1 && (p.toServer == "") == (p.toClient != [])
    && (p.toClient == [] ==> p.toServer == LastWritten(p.client))
    && (p.toClient != [] ==> p.toClient[0] == 200 || p.toClient[0] == 401)
  }

  // The server has authorised exactly the clients that are sending messages, or
  // whose good news is still in flight.
  ghost predicate PhasesMatch(host: string, p: Pair) {
    var last := LastWritten(p.client);
    && (p.server.authorised <==> IsMessage(last, host) || p.toClient == [200])
    && (p.toClient == [401] ==> IsLogin(last, host))
  }

  // The buffer holds the request in flight, and the reply timer runs, except that
  // every refusal leaves one more connection behind, whose empty read clears the
  // buffer and stops the timer again after the next response.
  ghost predicate BufferAndTimer(host: string, c: Client) {
    && (c.timerOn <==> c.slots == 1 || (c.slots == 2 && IsLogin(LastWritten(c), host)))
    && c.request == if c.timerOn then LastWritten(c) else ""
  }

  ghost predicate OneRequestEach(host: string, c: Client) {
    forall i :: 0 <= i < |c.written| ==> IsLogin(c.written[i], host) || IsMessage(c.written[i], host)
  }

  ghost predicate InStep(host: string, p: Pair) {
    && OneRequestEach(host, p.client) && 400 !in p.toClient
    && (p.client.slots == 0 ==> p == BEGIN || p.client.closed)
    && (p.client.slots > 0 && !p.client.closed ==>
          p.client.written != [] && TurnsTaken(p) && PhasesMatch(host, p) && BufferAndTimer(host, p.client))
  }

  lemma TextsDiffer(text: string, host: string)
    ensures !(IsLogin(text, host) && IsMessage(text, host))
  {
    if IsLogin(text, host) && IsMessage(text, host) {
      var t :| Acceptable(t) && text == LoginText(t.login, t.hash, host);
      var u :| Acceptable(u) && text == MessageText(u.message, host);
      LoginTask(t.login, t.hash, host);
      MessageTask(u.message, host);
    }
  }

  lemma TextsKnown(t: Typed, host: string)
    requires Acceptable(t)
    ensures IsLogin(LoginText(t.login, t.hash, host), host) && LoginText(t.login, t.hash, host) != ""
    ensures IsMessage(MessageText(t.message, host), host) && MessageText(t.message, host) != ""
  {}

  // What the server makes of the client's two requests.
  lemma RespondToClient(users: Users, s: Session, text: string, host: string)
    requires s.authorised <==> IsMessage(text, host)
    requires IsLogin(text, host) || IsMessage(text, host)
    ensures var (after, reply) := Respond(users, s, text);
            && (reply == Code(200) || reply == Code(401))
            && (IsMessage(text, host) ==> reply == Code(200) && after == s)
            && (IsLogin(text, host) ==> (after.authorised <==> reply == Code(200)))
  {
    TextsDiffer(text, host);
    if IsLogin(text, host) {
      var t :| Acceptable(t) && text == LoginText(t.login, t.hash, host);
      LoginTask(t.login, t.hash, host);
    } else {
      var t :| Acceptable(t) && text == MessageText(t.message, host);
      MessageTask(t.message, host);
    }
  }

  // A refusal closes the client without a word; any other code, none included, only
  // stops the timer and clears the buffer.
  lemma OtherCodes(c: Client, code: nat, t: Typed, host: string)
    requires c.slots > 0 && !c.closed && code != 200 && code != 401
    ensures OnReadyRead(c, code, t, host) == Client("", c.slots, false, code == 400, c.written)
  {
    EmptyReadsOnlyClear(ReadResponse(c, code, t, host), c.slots - 1, t, host);
  }

  // Of a request that arrives in two reads the server answers the first part, and
  // answers it as it would a request in its phase exactly when the cut is behind
  // its task word.
  lemma FirstPartIff(users: Users, s: Session, t: Typed, host: string, k: nat)
    requires Acceptable(t)
    requires k <= |if s.authorised then MessageText(t.message, host) else LoginText(t.login, t.hash, host)|
    ensures var text := if s.authorised then MessageText(t.message, host) else LoginText(t.login, t.hash, host);
            Respond(users, s, text[..k]).1 in {Code(200), Code(401)} <==> k >= if s.authorised then 12 else 18
  {
    if s.authorised {
      assert SeparatorFree("message") && '/' !in "message";
      CutTaskIff("message", t.message, host, k);
    } else {
      assert SeparatorFree("authorization") && '/' !in "authorization";
      assert SeparatorFree("login=") && SeparatorFree("&password=") && SeparatorFree(t.hash);
      CutTaskIff("authorization", LoginCommand(t.login, t.hash), host, k);
    }
  }

  lemma JoinedOne(blocks: seq<string>, text: string)
    ensures Joined((blocks + [text])[|blocks|..]) == text
  {}

  // One response makes the client write exactly one more request.
  lemma ReadyReadWrites(c: Client, code: nat, t: Typed, host: string)
    requires c.slots > 0 && !c.closed && code in [200, 401]
    ensures var text := if code == 200 then MessageText(t.message, host) else LoginText(t.login, t.hash, host);
            OnReadyRead(c, code, t, host)
            == Client(if c.slots == 1 then text else "", c.slots + (if code == 200 then 0 else 1),
                      c.slots == 1, false, c.written + [text])
  {
    var text := if code == 200 then MessageText(t.message, host) else LoginText(t.login, t.hash, host);
    assert "" + text == text;
    EmptyReadsOnlyClear(ReadResponse(c, code, t, host), c.slots - 1, t, host);
  }

  lemma WroteInStep(host: string, p: Pair, c: Client, text: string)
    requires OneRequestEach(host, p.client) && c.written == p.client.written + [text]
    requires IsLogin(text, host) || IsMessage(text, host)
    ensures OneRequestEach(host, c) && LastWritten(c) == text
    ensures p.client.written <= c.written && Sent(p.client, c) == text
  {
    JoinedOne(p.client.written, text);
  }

  lemma StartInStep(users: Users, host: string, p: Pair, e: Event)
    requires InStep(host, p) && e.Start?
    ensures InStep(host, Step(users, host, p, e))
  {
    if !p.client.closed && p.client.slots == 0 && Acceptable(e.typed) {
      var text := LoginText(e.typed.login, e.typed.hash, host);
      TextsKnown(e.typed, host);
      TextsDiffer(text, host);
      var c := NewConnection(p.client, e.typed, host);
      assert "" + text == text;
      assert c == Client(text, 1, true, false, [] + [text]);
      WroteInStep(host, p, c, text);
    }
  }

  lemma ServerInStep(users: Users, host: string, p: Pair)
    requires InStep(host, p)
    ensures InStep(host, Step(users, host, p, ServerReads))
  {
    if !p.client.closed && p.toServer != "" {
      var text := LastWritten(p.client);
      assert text == p.client.written[|p.client.written| - 1];
      RespondToClient(users, p.server, text, host);
      TextsDiffer(text, host);
    }
  }

  lemma NextInStep(host: string, p: Pair, code: nat, text: string, c: Client)
    requires InStep(host, p) && !p.client.closed && p.toClient == [code]
    requires text != "" && if code == 200 then IsMessage(text, host) else IsLogin(text, host)
    requires c == Client(if p.client.slots == 1 then text else "",
                         p.client.slots + (if code == 200 then 0 else 1),
                         p.client.slots == 1, false, p.client.written + [text])
    ensures InStep(host, p.(client := c, toClient := [], toServer := text))
  {
    TextsDiffer(text, host);
    TextsDiffer(LastWritten(p.client), host);
    WroteInStep(host, p, c, text);
  }

  lemma ClientStep(users: Users, host: string, p: Pair, e: Event, text: string)
    requires e.ClientReads? && !p.client.closed && p.toClient != [] && Acceptable(e.typed) && p.toServer == ""
    requires var c := OnReadyRead(p.client, p.toClient[0], e.typed, host);
             c.written == p.client.written + [text]
    ensures var c := OnReadyRead(p.client, p.toClient[0], e.typed, host);
            Step(users, host, p, e) == p.(client := c, toClient := [], toServer := text)
  {
    JoinedOne(p.client.written, text);
    assert "" + text == text;
  }

  lemma ClientInStep(users: Users, host: string, p: Pair, e: Event, code: nat, text: string)
    requires InStep(host, p) && e.ClientReads? && Acceptable(e.typed)
    requires !p.client.closed && p.toClient == [code]
    requires text == if code == 200 then MessageText(e.typed.message, host)
                     else LoginText(e.typed.login, e.typed.hash, host)
    ensures InStep(host, Step(users, host, p, e))
  {
    var c := OnReadyRead(p.client, code, e.typed, host);
    TextsKnown(e.typed, host);
    ReadyReadWrites(p.client, code, e.typed, host);
    NextInStep(host, p, code, text, c);
    ClientStep(users, host, p, e, text);
  }

  lemma StepInStep(users: Users, host: string, p: Pair, e: Event)
    requires InStep(host, p)
    ensures InStep(host, Step(users, host, p, e))
  {
    if !p.client.closed {
      match e
      case Start(_) => StartInStep(users, host, p, e);
      case ServerReads => ServerInStep(users, host, p);
      case ClientReads(t) =>
        if p.toClient != [] && Acceptable(t) {
          var code := p.toClient[0];
          ClientInStep(users, host, p, e, code,
                       if code == 200 then MessageText(t.message, host) else LoginText(t.login, t.hash, host));
        }
      case ClientTimeout =>
      case ServerTimeout =>
    }
  }

  // An honest client and the server stay in step in every run: 400 is never sent,
  // the server is authorised exactly in the client's message phase (or with the
  // 200 in flight), and every block written is exactly one request.
  lemma {:induction false} HonestPairInStep(users: Users, host: string, events: seq<Event>)
    ensures InStep(host, Exec(users, host, events))
  {
    if events != [] {
      var before := events[..|events| - 1];
      HonestPairInStep(users, host, before);
      StepInStep(users, host, Exec(users, host, before), events[|events| - 1]);
    }
  }

  // ---------- what becomes of the client ----------

  // In every run the client is closed by a timeout or not at all, and a timeout
  // closes it exactly if the timer of that side is running.
  lemma ClosedByTimeoutIff(users: Users, host: string, events: seq<Event>, e: Event)
    requires !Exec(users, host, events).client.closed
    ensures var p := Exec(users, host, events);
            Step(users, host, p, e).client.closed
            <==> (e.ClientTimeout? && p.client.timerOn) || (e.ServerTimeout? && p.serverTimer)
  {
    var p := Exec(users, host, events);
    HonestPairInStep(users, host, events);
    if e.ClientReads? && p.toClient != [] && Acceptable(e.typed) {
      ReadyReadWrites(p.client, p.toClient[0], e.typed, host);
    }
  }

  // Once it is closed, nothing more is sent or read, whatever follows.
  lemma {:induction false} ClosedForGood(users: Users, host: string, events: seq<Event>, more: seq<Event>)
    requires Exec(users, host, events).client.closed
    ensures Exec(users, host, events + more) == Exec(users, host, events)
    decreases |more|
  {
    if more == [] {
      assert events + more == events;
    } else {
      ClosedForGood(users, host, events, more[..|more| - 1]);
      assert (events + more)[..|events + more| - 1] == events + more[..|more| - 1];
    }
  }

  // In every run the server answers the request it has been sent; a message with
  // 200, and a login with a plain name with 200 exactly if name and hash are listed.
  lemma AnsweredIff(users: Users, host: string, events: seq<Event>, t: Typed)
    requires var p := Exec(users, host, events); !p.client.closed && p.toServer != "" && Acceptable(t)
    ensures var p := Exec(users, host, events);
            var p' := Step(users, host, p, ServerReads);
            && p'.toServer == "" && p'.client == p.client && p'.serverTimer
            && (p'.toClient == [200] || p'.toClient == [401])
            && (p.toServer == MessageText(t.message, host) ==> p'.toClient == [200])
            && (p.toServer == LoginText(t.login, t.hash, host) && Plain(t.login) ==>
                  (p'.toClient == [200] <==> (t.login, t.hash) in users))
  {
    var p := Exec(users, host, events);
    HonestPairInStep(users, host, events);
    var text := LastWritten(p.client);
    assert text == p.client.written[|p.client.written| - 1];
    RespondToClient(users, p.server, text, host);
    TextsDiffer(text, host);
    if text == LoginText(t.login, t.hash, host) && Plain(t.login) {
      ReplyToLogin(users, p.server, t.login, t.hash, host);
    }
  }

  // And the client answers each response with one request: a message after 200, a
  // login after 401.
  lemma GoesOnTalking(users: Users, host: string, events: seq<Event>, t: Typed)
    requires var p := Exec(users, host, events); !p.client.closed && p.toClient != [] && Acceptable(t)
    ensures var p := Exec(users, host, events);
            var p' := Step(users, host, p, ClientReads(t));
            var text := if p.toClient == [200] then MessageText(t.message, host) else LoginText(t.login, t.hash, host);
            && p'.toClient == [] && p'.toServer == text && p'.client.written == p.client.written + [text]
            && p'.server == p.server
  {
    var p := Exec(users, host, events);
    HonestPairInStep(users, host, events);
    var text := if p.toClient == [200] then MessageText(t.message, host) else LoginText(t.login, t.hash, host);
    ReadyReadWrites(p.client, p.toClient[0], t, host);
    ClientStep(users, host, p, ClientReads(t), text);
  }

  // A client starts exactly with a name of four characters or more and a message of
  // one, none of them a blank or the end of a line.
  lemma StartsIff(users: Users, host: string, t: Typed)
    requires HexDigits(t.hash)
    ensures Step(users, host, BEGIN, Start(t)) != BEGIN
            <==> |t.login| > 3 && t.message != "" && forall c :: c in t.login + t.message ==> c !in " \r\n"
  {
    if Acceptable(t) {
      StartsWithLogin(users, host, t);
    }
    assert forall c :: c in " \r\n" <==> c == ' ' || c == '\r' || c == '\n';
    assert forall i :: 0 <= i < |t.login| ==> t.login[i] in t.login + t.message;
    assert forall i :: 0 <= i < |t.message| ==> t.message[i] in t.login + t.message;
  }

  // A client that starts asks for a login.
  lemma StartsWithLogin(users: Users, host: string, t: Typed)
    requires Acceptable(t)
    ensures var p := Step(users, host, BEGIN, Start(t));
            && p.toServer == LoginText(t.login, t.hash, host) && p.client.timerOn && !p.client.closed
            && p.toClient == [] && !p.server.authorised
  {
    var text := LoginText(t.login, t.hash, host);
    var c := NewConnection(NEW_CLIENT, t, host);
    assert "" + text == text;
    assert c == Client(text, 1, true, false, [] + [text]);
    JoinedOne([], text);
  }
}
