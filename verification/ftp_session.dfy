// The control connection of the simulator's FTP server: CRLF framing of the
// received text, command parsing and dispatch behind the login gate, and the
// handlers that change the session (USER, PASS, TYPE, PORT, PASV, CWD, QUIT).
// Work done on the file system or on data connections is recorded as a
// request; the answers of the file system come back as parameters.

module FtpSession {
  import opened Base
  import ValidationCommon

  // ---------------------------------------------------------------------
  // Session values
  // ---------------------------------------------------------------------

  datatype TransferType = Ascii | Binary

  /** The data port: none yet, a number, or NaN from an unparsable PORT. */
  datatype DataPort = NoPort | PortNumber(n: int) | NotANumber

  /** Work handed to the file system or the network, answered later. */
  datatype Request =
    | Listen                                            // PASV: open a passive listener
    | ChangeDir(newDir: string)                         // CWD / CDUP: check the directory
    | FileRequest(cmd: string, args: string, dir: string) // LIST RETR STOR DELE RMD MKD

  /** What the file system reports for a CWD target. */
  datatype DirCheck = NotAccessible | NotDirectory | IsDirectory

  /** The worker's user configuration. */
  datatype UserConfig = UserConfig(username: string, password: string, rootDir: string)

  /** Everything the control connection keeps, except the receive buffer. */
  datatype Control = Control(
    connected: bool,
    authenticated: bool,
    username: Option<string>,
    currentDir: string,
    transferType: TransferType,
    dataHost: Option<string>,
    dataPort: DataPort,
    passive: bool,
    localIp: string,
    replies: seq<string>,
    requests: seq<Request>)

  /** A fresh session, before the worker attaches its socket. */
  function Initial(): (c: Control)
    ensures !c.connected && !c.authenticated && c.currentDir == "/" && c.transferType == Ascii
    ensures c.replies == [] && c.requests == []
  {
    Control(false, false, None, "/", Ascii, None, NoPort, false, "", [], [])
  }

  /** The worker attaches the socket and greets the client. */
  function AttachSpec(c: Control, localIp: string): (r: Control)
    ensures r.connected && r.localIp == localIp
    ensures r.replies == c.replies + ["220  Welcome to the Mini Tools FTP server"]
  {
    Reply(c.(connected := true, localIp := localIp), "220  Welcome to the Mini Tools FTP server")
  }

  /** sendMsg: a reply reaches the client only while the socket is there. */
  function Reply(c: Control, msg: string): (r: Control)
    ensures r.replies == if c.connected then c.replies + [msg] else c.replies
    ensures r.(replies := c.replies) == c
  {
    if c.connected then c.(replies := c.replies + [msg]) else c
  }

  // ---------------------------------------------------------------------
  // Framing: split('\r\n')
  // ---------------------------------------------------------------------

  const CRLF: string := "\r\n"

  predicate StartsCrlf(s: string)
  {
    |s| >= 2 && s[0] == '\r' && s[1] == '\n'
  }

  /** No CR LF pair anywhere in s. */
  predicate NoCrlf(s: string)
  {
    forall k :: 0 <= k < |s| - 1 ==> !(s[k] == '\r' && s[k + 1] == '\n')
  }

  /** `s.split('\r\n')`: the pieces between CR LF pairs, matched from the
    * left; k pairs give k + 1 pieces, empty ones included. */
  function CrlfPieces(s: string): (r: seq<string>)
    ensures |r| >= 1
    decreases |s|
  {
    if s == [] then [""]
    else if StartsCrlf(s) then [""] + CrlfPieces(s[2..])
    else var rest := CrlfPieces(s[1..]); [[s[0]] + rest[0]] + rest[1..]
  }

  /** `pieces.join('\r\n')` */
  function JoinCrlf(pieces: seq<string>): string
    requires |pieces| >= 1
  {
    if |pieces| == 1 then pieces[0] else pieces[0] + CRLF + JoinCrlf(pieces[1..])
  }

  /** Lines each followed by its CR LF. */
  function Terminated(lines: seq<string>): string
  {
    if lines == [] then "" else lines[0] + CRLF + Terminated(lines[1..])
  }

  function Init(pieces: seq<string>): seq<string>
    requires |pieces| >= 1
  {
    pieces[..|pieces| - 1]
  }

  function Last(pieces: seq<string>): string
    requires |pieces| >= 1
  {
    pieces[|pieces| - 1]
  }

  /** CrlfPieces on a text with a known first character that does not
    * start a CR LF: the character joins the first piece of the rest. */
  lemma CrlfCons(s: string)
    requires s != [] && !StartsCrlf(s)
    ensures var r, rest := CrlfPieces(s), CrlfPieces(s[1..]);
            |r| == |rest| && r[0] == [s[0]] + rest[0] && r[1..] == rest[1..]
  {
  }

  /** Joining the pieces gives back the text. */
  lemma {:induction false} CrlfPiecesJoin(s: string)
    ensures JoinCrlf(CrlfPieces(s)) == s
    decreases |s|
  {
    if s != [] {
      var r := CrlfPieces(s);
      if StartsCrlf(s) {
        var q := CrlfPieces(s[2..]);
        CrlfPiecesJoin(s[2..]);
        assert r == [""] + q && |r| >= 2 && r[1..] == q;
        assert JoinCrlf(r) == "" + CRLF + JoinCrlf(q);
        assert s == CRLF + s[2..];
      } else {
        var rest := CrlfPieces(s[1..]);
        CrlfPiecesJoin(s[1..]);
        CrlfCons(s);
        if |rest| > 1 {
          JoinCrlfHead(s[0], rest, r);
        }
        assert s == [s[0]] + s[1..];
      }
    }
  }

  /** A character in front of the first piece is in front of the text. */
  lemma JoinCrlfHead(c: char, pieces: seq<string>, r: seq<string>)
    requires |pieces| > 1 && |r| == |pieces| && r[0] == [c] + pieces[0] && r[1..] == pieces[1..]
    ensures JoinCrlf(r) == [c] + JoinCrlf(pieces)
  {
    var a, t := pieces[0], JoinCrlf(pieces[1..]);
    assert ([c] + a) + CRLF + t == [c] + (a + CRLF + t);
  }

  /** No piece holds a CR LF pair. */
  lemma {:induction false} CrlfPiecesClean(s: string)
    ensures forall k :: 0 <= k < |CrlfPieces(s)| ==> NoCrlf(CrlfPieces(s)[k])
    decreases |s|
  {
    if s != [] {
      var r := CrlfPieces(s);
      if StartsCrlf(s) {
        var q := CrlfPieces(s[2..]);
        CrlfPiecesClean(s[2..]);
        assert r == [""] + q;
        forall k | 0 <= k < |r| ensures NoCrlf(r[k]) {
          if k > 0 { assert r[k] == q[k - 1]; }
        }
      } else {
        var rest := CrlfPieces(s[1..]);
        CrlfPiecesClean(s[1..]);
        CrlfCons(s);
        forall k | 0 <= k < |r| ensures NoCrlf(r[k]) {
          if k == 0 {
            HeadClean(s, rest[0]);
          } else {
            assert r[k] == rest[k - 1 + 1];
          }
        }
      }
    }
  }

  /** The first character before a first piece without CR LF. */
  lemma HeadClean(s: string, first: string)
    requires s != [] && !StartsCrlf(s) && first == CrlfPieces(s[1..])[0] && NoCrlf(first)
    ensures NoCrlf([s[0]] + first)
  {
    var p := [s[0]] + first;
    if s[0] == '\r' && |first| > 0 {
      FirstPieceHead(s[1..]);
    }
    forall i | 0 <= i < |p| - 1 ensures !(p[i] == '\r' && p[i + 1] == '\n') {
      if i > 0 { assert p[i] == first[i - 1] && p[i + 1] == first[i]; }
    }
  }

  /** The first piece, when not empty, begins with the first character. */
  lemma FirstPieceHead(s: string)
    requires |CrlfPieces(s)[0]| > 0
    ensures s != [] && !StartsCrlf(s) && CrlfPieces(s)[0][0] == s[0]
  {
  }

  /** More text after the last piece continues the last piece only. */
  lemma {:induction false} CrlfPiecesAppend(x: string, y: string)
    ensures CrlfPieces(x + y) == Init(CrlfPieces(x)) + CrlfPieces(Last(CrlfPieces(x)) + y)
    decreases |x|
  {
    var p := CrlfPieces(x);
    if x == [] {
      assert x + y == y;
      assert Last(p) + y == y;
    } else if StartsCrlf(x) {
      CrlfPiecesAppend(x[2..], y);
      CrlfAppendCrlf(x, y);
    } else {
      var q := CrlfPieces(x[1..]);
      CrlfCons(x);
      if |q| == 1 {
        CrlfPiecesJoin(x[1..]);
        assert p == [[x[0]] + x[1..]];
        assert [x[0]] + x[1..] == x;
      } else {
        CrlfPiecesAppend(x[1..], y);
        CrlfAppendPlain(x, y, q);
      }
    }
  }

  lemma CrlfAppendCrlf(x: string, y: string)
    requires StartsCrlf(x)
    requires CrlfPieces(x[2..] + y) == Init(CrlfPieces(x[2..])) + CrlfPieces(Last(CrlfPieces(x[2..])) + y)
    ensures CrlfPieces(x + y) == Init(CrlfPieces(x)) + CrlfPieces(Last(CrlfPieces(x)) + y)
  {
    assert (x + y)[2..] == x[2..] + y;
    assert StartsCrlf(x + y);
    PiecesOpen(CrlfPieces(x + y), CrlfPieces(x[2..] + y), CrlfPieces(x), CrlfPieces(x[2..]),
               CrlfPieces(Last(CrlfPieces(x[2..])) + y));
  }

  /** The sequence step behind CrlfAppendCrlf: an empty first piece in
    * front of both sides of the append. */
  lemma PiecesOpen(a: seq<string>, rest: seq<string>, p: seq<string>, q: seq<string>, tail: seq<string>)
    requires |q| >= 1 && p == [""] + q && a == [""] + rest && rest == Init(q) + tail
    ensures a == Init(p) + tail && Last(p) == Last(q)
  {
    assert Init(p) == [""] + Init(q);
  }

  lemma CrlfAppendPlain(x: string, y: string, q: seq<string>)
    requires x != [] && !StartsCrlf(x) && q == CrlfPieces(x[1..]) && |q| > 1
    requires CrlfPieces(x[1..] + y) == Init(q) + CrlfPieces(Last(q) + y)
    ensures CrlfPieces(x + y) == Init(CrlfPieces(x)) + CrlfPieces(Last(CrlfPieces(x)) + y)
  {
    CrlfCons(x);
    assert |x| >= 2;
    AppendHead(x, y);
    CrlfCons(x + y);
    PiecesShift(x[0], CrlfPieces(x + y), CrlfPieces(x[1..] + y), CrlfPieces(x), q, CrlfPieces(Last(q) + y));
  }

  /** Text appended after two characters leaves the head as it was. */
  lemma AppendHead(x: string, y: string)
    requires |x| >= 2 && !StartsCrlf(x)
    ensures x + y != [] && !StartsCrlf(x + y) && (x + y)[0] == x[0] && (x + y)[1..] == x[1..] + y
  {
  }

  /** The sequence step behind CrlfAppendPlain: one character joins the
    * first piece on both sides of the append. */
  lemma PiecesShift(c: char, a: seq<string>, rest: seq<string>, p: seq<string>, q: seq<string>, tail: seq<string>)
    requires |q| > 1 && |p| == |q| && p[0] == [c] + q[0] && p[1..] == q[1..]
    requires rest == Init(q) + tail
    requires |a| == |rest| && a[0] == [c] + rest[0] && a[1..] == rest[1..]
    ensures a == Init(p) + tail && Last(p) == Last(q)
  {
    var n := |q| - 1;
    forall k | 0 <= k < |a| ensures a[k] == (Init(p) + tail)[k] {
      if k == 0 {
        assert rest[0] == q[0];
      } else if k < n {
        assert a[k] == rest[k] == q[k] == p[k];
      } else {
        assert a[k] == rest[k] == tail[k - n];
      }
    }
  }

  /** The pieces before the last, each with its CR LF, then the last. */
  lemma {:induction false} JoinCrlfTerminated(pieces: seq<string>)
    requires |pieces| >= 1
    ensures JoinCrlf(pieces) == Terminated(Init(pieces)) + Last(pieces)
  {
    if |pieces| > 1 {
      JoinCrlfTerminated(pieces[1..]);
      assert Init(pieces)[0] == pieces[0] && Init(pieces)[1..] == Init(pieces[1..]);
      assert Last(pieces[1..]) == Last(pieces);
    }
  }

  // ---------------------------------------------------------------------
  // Command lines
  // ---------------------------------------------------------------------

  function UpperChar(c: char): char
  {
    if 'a' <= c <= 'z' then (c as int - 32) as char else c
  }

  /** toUpperCase on ASCII letters. */
  function Upper(s: string): (r: string)
    ensures |r| == |s| && forall k :: 0 <= k < |s| ==> r[k] == UpperChar(s[k])
  {
    seq(|s|, (k: int) requires 0 <= k < |s| => UpperChar(s[k]))
  }

  /** `command.split(' ')[0]` */
  function CommandWord(command: string): string
  {
    Split(command, ' ')[0]
  }

  /** `command.split(' ').slice(1).join(' ')` */
  function CommandArgs(command: string): string
  {
    var parts := Split(command, ' ');
    if |parts| == 1 then "" else Join(parts[1..], ' ')
  }

  /** The command word is the text before the first space and the
    * arguments are all of the text after it, spaces included. */
  lemma CommandParts(command: string)
    ensures ' ' !in CommandWord(command)
    ensures ' ' in command ==> command == CommandWord(command) + " " + CommandArgs(command)
    ensures ' ' !in command ==> CommandWord(command) == command && CommandArgs(command) == ""
  {
    var parts := Split(command, ' ');
    SplitJoin(command, ' ');
    SplitPieces(command, ' ');
    assert ' ' !in parts[0];
    if |parts| == 1 {
      assert Join(parts, ' ') == parts[0];
    } else {
      assert Join(parts, ' ') == parts[0] + " " + Join(parts[1..], ' ');
      assert command[|parts[0]|] == ' ';
    }
  }

  // ---------------------------------------------------------------------
  // parseInt(s, 10)
  // ---------------------------------------------------------------------

  /** The longest run of decimal digits at the start of s. */
  function DigitPrefix(s: string): (r: string)
    ensures AllDigits(r) && |r| <= |s| && r == s[..|r|]
    ensures |r| < |s| ==> !IsDigit(s[|r|])
  {
    if s != [] && IsDigit(s[0]) then [s[0]] + DigitPrefix(s[1..]) else []
  }

  /** parseInt(s, 10): leading white space, an optional sign, then the
    * longest run of digits; None stands for NaN (no digit at all). */
  function ParseInt(s: string): Option<int>
  {
    var t := ValidationCommon.TrimStart(s);
    var u := if t != [] && (t[0] == '-' || t[0] == '+') then t[1..] else t;
    var d := DigitPrefix(u);
    if d == [] then None
    else if t[0] == '-' then Some(-(DigitsValue(d) as int))
    else Some(DigitsValue(d))
  }

  lemma {:induction false} DigitPrefixAll(s: string)
    requires AllDigits(s)
    ensures DigitPrefix(s) == s
  {
    if s != [] {
      DigitPrefixAll(s[1..]);
    }
  }

  /** parseInt reads back the decimal text of a number. */
  lemma ParseDecimal(n: nat)
    ensures ParseInt(Decimal(n)) == Some(n)
  {
    var s := Decimal(n);
    assert IsDigit(s[0]);
    assert ValidationCommon.TrimStart(s) == s;
    DigitPrefixAll(s);
    DecimalValue(n);
  }

  // ---------------------------------------------------------------------
  // Handlers
  // ---------------------------------------------------------------------

  const HANDLERS: set<string> := {"USER", "PASS", "SYST", "PWD", "TYPE", "PASV", "PORT", "LIST", "CWD",
                                  "CDUP", "RETR", "STOR", "QUIT", "FEAT", "OPTS", "NOOP", "DELE", "RMD", "MKD"}

  /** The commands served before login. */
  const NO_AUTH: set<string> := {"USER", "PASS", "SYST", "FEAT", "QUIT", "NOOP", "OPTS"}

  /** USER: the name is kept only when it is the configured one. */
  function UserSpec(c: Control, u: UserConfig, name: string): (r: Control)
    ensures r.username == (if name == u.username then Some(name) else c.username)
    ensures r.authenticated == c.authenticated
  {
    if u.username == name then Reply(c.(username := Some(name)), "331 Username OK, password required")
    else Reply(c, "530 Authentication failed")
  }

  /** PASS: logged in when the kept name and the password both match. */
  function PassSpec(c: Control, u: UserConfig, password: string): (r: Control)
  {
    if c.username == Some(u.username) && u.password == password then
      Reply(c.(authenticated := true, currentDir := "/"), "230 User logged in, proceed")
    else Reply(c, "530 Authentication failed")
  }

  /** TYPE: A and I select the transfer type; anything else is refused. */
  function TypeSpec(c: Control, t: string): (r: Control)
  {
    if t == "A" then Reply(c.(transferType := Ascii), "200 Type set to ASCII")
    else if t == "I" then Reply(c.(transferType := Binary), "200 Type set to binary")
    else Reply(c, "504 Type not implemented")
  }

  /** The port a PORT command designates: p5 * 256 + p6, NaN when either
    * is not a number. */
  function PortValue(p5: string, p6: string): DataPort
  {
    match (ParseInt(p5), ParseInt(p6))
    case (Some(hi), Some(lo)) => PortNumber(hi * 256 + lo)
    case _ => NotANumber
  }

  /** PORT h1,h2,h3,h4,p5,p6 (RFC 959 section 4.1.2): active mode to the
    * given host and port; any other number of fields is refused. */
  function PortSpec(c: Control, args: string): (r: Control)
  {
    var parts := Split(args, ',');
    if |parts| != 6 then Reply(c, "501 Invalid PORT command")
    else
      Reply(c.(dataHost := Some(Join(parts[..4], '.')), dataPort := PortValue(parts[4], parts[5]), passive := false),
            "200 PORT command successful")
  }

  /** OPTS: only UTF8 is accepted. */
  function OptsSpec(c: Control, args: string): (r: Control)
    ensures r.(replies := c.replies) == c
  {
    if Upper(Split(args, ' ')[0]) == "UTF8" then Reply(c, "200 UTF8 set to ON")
    else Reply(c, "501 Option not supported")
  }

  function FeatSpec(c: Control): (r: Control)
    ensures r.(replies := c.replies) == c
  {
    var c1 := Reply(c, "211-Features:");
    var c2 := Reply(c1, " UTF8");
    var c3 := Reply(c2, " SIZE");
    var c4 := Reply(c3, " PASV");
    var c5 := Reply(c4, " TYPE A;I");
    Reply(c5, "211 End")
  }

  /** QUIT: the goodbye, then the data connection and the socket closed. */
  function QuitSpec(c: Control): (r: Control)
    ensures !r.connected && !r.passive
  {
    Reply(c, "221 Goodbye").(connected := false, passive := false)
  }

  // ---------------------------------------------------------------------
  // CWD: path normalisation
  // ---------------------------------------------------------------------

  /** `split('/').filter(segment => segment && segment !== '.')` on pieces. */
  function Clean(segments: seq<string>): (r: seq<string>)
    ensures forall k :: 0 <= k < |r| ==> r[k] != "" && r[k] != "." && r[k] in segments
  {
    if segments == [] then []
    else (if segments[0] == "" || segments[0] == "." then [] else [segments[0]]) + Clean(segments[1..])
  }

  /** The segment stack: '..' drops the segment before it (none at the
    * top), anything else is pushed. */
  function Resolve(segments: seq<string>): (r: seq<string>)
    ensures forall k :: 0 <= k < |r| ==> r[k] != ".." && r[k] in segments
  {
    if segments == [] then []
    else
      var s := Resolve(Init(segments));
      if Last(segments) == ".." then (if s == [] then [] else Init(s))
      else s + [Last(segments)]
  }

  /** `'/' + segments.join('/')` */
  function Rooted(segments: seq<string>): string
  {
    if segments == [] then "/" else "/" + Join(segments, '/')
  }

  /** The segments of a path, resolved. */
  function PathSegments(path: string): seq<string>
  {
    Resolve(Clean(Split(path, '/')))
  }

  /** A path made absolute and free of empty, '.' and '..' segments. */
  function Normalized(path: string): string
  {
    Rooted(PathSegments(path))
  }

  /** The CWD argument put after the current directory, when relative. */
  function Combined(currentDir: string, dir: string): string
  {
    if |dir| > 0 && dir[0] == '/' then dir
    else if currentDir == "/" then "/" + dir else currentDir + "/" + dir
  }

  /** The path CWD computes, as written: a relative argument is appended to
    * the current directory and normalised, an absolute one is taken as
    * it is. */
  function CwdTargetAsWritten(currentDir: string, dir: string): string
  {
    if |dir| > 0 && dir[0] == '/' then dir else Normalized(Combined(currentDir, dir))
  }

  /** The path CWD computes, with the absolute argument normalised too. */
  function CwdTarget(currentDir: string, dir: string): string
  {
    Normalized(Combined(currentDir, dir))
  }

  /** The segments of path.join(rootDir, path), for an absolute rootDir:
    * the two joined by '/' and resolved. */
  function JoinedSegments(rootDir: string, path: string): seq<string>
  {
    PathSegments(rootDir + "/" + path)
  }

  /** The joined path lies inside the root directory. */
  predicate Confined(rootDir: string, path: string)
  {
    var root := PathSegments(rootDir);
    var full := JoinedSegments(rootDir, path);
    |root| <= |full| && full[..|root|] == root
  }

  /** A segment of a normalised path. */
  predicate Plain(segment: string)
  {
    segment != "" && segment != "." && segment != ".." && '/' !in segment
  }

  /** The resolved segments of any path are plain. */
  lemma PathSegmentsPlain(path: string)
    ensures forall k :: 0 <= k < |PathSegments(path)| ==> Plain(PathSegments(path)[k])
  {
    var pieces := Split(path, '/');
    SplitPieces(path, '/');
    var r := PathSegments(path);
    forall k | 0 <= k < |r| ensures Plain(r[k]) {
      assert r[k] in Clean(pieces);
      var j :| 0 <= j < |pieces| && pieces[j] == r[k];
    }
  }

  lemma {:induction false} CleanAppend(a: seq<string>, b: seq<string>)
    ensures Clean(a + b) == Clean(a) + Clean(b)
  {
    if a != [] {
      CleanAppend(a[1..], b);
      assert (a + b)[1..] == a[1..] + b;
      var h := if a[0] == "" || a[0] == "." then [] else [a[0]];
      assert (h + Clean(a[1..])) + Clean(b) == h + (Clean(a[1..]) + Clean(b));
    } else {
      assert a + b == b;
    }
  }

  lemma {:induction false} CleanPlain(segments: seq<string>)
    requires forall k :: 0 <= k < |segments| ==> Plain(segments[k])
    ensures Clean(segments) == segments
  {
    if segments != [] {
      CleanPlain(segments[1..]);
    }
  }

  /** Segments without '..' are kept after whatever came before. */
  lemma {:induction false} ResolveAppendPlain(a: seq<string>, b: seq<string>)
    requires forall k :: 0 <= k < |b| ==> b[k] != ".."
    ensures Resolve(a + b) == Resolve(a) + b
  {
    if b != [] {
      ResolveAppendPlain(a, Init(b));
      InitLastAppend(a, b);
      assert Init(b) + [Last(b)] == b;
    } else {
      assert a + b == a;
    }
  }

  /** Resolving a prefix first changes nothing. */
  lemma {:induction false} ResolvePrefix(a: seq<string>, b: seq<string>)
    ensures Resolve(Resolve(a) + b) == Resolve(a + b)
  {
    if b == [] {
      assert a + b == a && Resolve(a) + b == Resolve(a);
      ResolveAppendPlain([], Resolve(a));
      assert [] + Resolve(a) == Resolve(a);
    } else {
      ResolvePrefix(a, Init(b));
      InitLastAppend(a, b);
      InitLastAppend(Resolve(a), b);
    }
  }

  lemma InitLastAppend(a: seq<string>, b: seq<string>)
    requires b != []
    ensures Init(a + b) == a + Init(b) && Last(a + b) == Last(b)
  {
    assert (a + b)[..|a + b| - 1] == a + b[..|b| - 1];
  }

  /** One more segment on the stack: '..' pops, anything else pushes. */
  lemma ResolveStep(segments: seq<string>, i: nat)
    requires i < |segments|
    ensures var s := Resolve(segments[..i]);
            Resolve(segments[..i + 1]) ==
              if segments[i] == ".." then (if s == [] then [] else Init(s)) else s + [segments[i]]
  {
    assert Init(segments[..i + 1]) == segments[..i] && Last(segments[..i + 1]) == segments[i];
  }

  /** Splitting a path rooted at plain segments gives an empty piece, then
    * the segments. */
  lemma RootedSplit(segments: seq<string>)
    requires forall k :: 0 <= k < |segments| ==> Plain(segments[k])
    ensures Split(Rooted(segments), '/') == [""] + (if segments == [] then [""] else segments)
  {
    var j := if segments == [] then "" else Join(segments, '/');
    assert Rooted(segments) == [] + ['/'] + j;
    SplitAppend([], j, '/');
    if segments != [] {
      JoinSplit(segments, '/');
    }
  }

  /** The segments of a path rooted at plain segments are those segments. */
  lemma RootedSegments(segments: seq<string>)
    requires forall k :: 0 <= k < |segments| ==> Plain(segments[k])
    ensures PathSegments(Rooted(segments)) == segments
  {
    CleanRooted(segments);
    ResolveAppendPlain([], segments);
    assert [] + segments == segments;
  }

  /** A normalised path starts at the root and all its segments are plain;
    * normalising it again changes nothing. */
  lemma NormalizedClean(path: string)
    ensures var n := Normalized(path);
            |n| > 0 && n[0] == '/' && Normalized(n) == n &&
            forall k :: 0 <= k < |PathSegments(n)| ==> Plain(PathSegments(n)[k])
  {
    PathSegmentsPlain(path);
    RootedSegments(PathSegments(path));
  }

  /** Cleaning the pieces of a rooted path gives back its segments. */
  lemma CleanRooted(segments: seq<string>)
    requires forall k :: 0 <= k < |segments| ==> Plain(segments[k])
    ensures Clean(Split(Rooted(segments), '/')) == segments
  {
    RootedSplit(segments);
    var tail := if segments == [] then [""] else segments;
    CleanAppend([""], tail);
    if segments != [] { CleanPlain(segments); }
  }

  /** A rooted path joined to the root directory adds its segments to the
    * root's. */
  lemma RootJoinSegments(rootDir: string, segments: seq<string>)
    requires forall k :: 0 <= k < |segments| ==> Plain(segments[k])
    ensures JoinedSegments(rootDir, Rooted(segments)) == PathSegments(rootDir) + segments
  {
    var t := Rooted(segments);
    SplitAppend(rootDir, t, '/');
    CleanAppend(Split(rootDir, '/'), Split(t, '/'));
    CleanRooted(segments);
    ResolveAppendPlain(Clean(Split(rootDir, '/')), segments);
  }

  /** Every CWD target, relative or absolute, is a normalised path, and
    * joined to the root directory it stays inside it. */
  lemma CwdStaysInRoot(rootDir: string, currentDir: string, dir: string)
    ensures var t := CwdTarget(currentDir, dir);
            t[0] == '/' && Normalized(t) == t && Confined(rootDir, t)
  {
    var p := Combined(currentDir, dir);
    var r := PathSegments(p);
    assert CwdTarget(currentDir, dir) == Normalized(p) == Rooted(r);
    NormalizedClean(p);
    PathSegmentsPlain(p);
    RootJoinSegments(rootDir, r);
    var root := PathSegments(rootDir);
    assert (root + r)[..|root|] == root;
  }

  /** As written, an absolute CWD argument is joined to the root directory
    * without being normalised: "CWD /.." names the parent of any root
    * directory that has a segment. */
  lemma CwdEscapesRoot(rootDir: string, currentDir: string)
    requires PathSegments(rootDir) != []
    ensures CwdTargetAsWritten(currentDir, "/..") == "/.."
    ensures JoinedSegments(rootDir, "/..") == Init(PathSegments(rootDir))
    ensures !Confined(rootDir, CwdTargetAsWritten(currentDir, "/.."))
  {
    var pieces := Split(rootDir, '/');
    SplitAppend(rootDir, "/..", '/');
    assert rootDir + "/" + "/.." == rootDir + ['/'] + "/..";
    ParentPieces();
    CleanAppend(pieces, Split("/..", '/'));
    var cleaned := Clean(pieces) + [".."];
    assert Init(cleaned) == Clean(pieces) && Last(cleaned) == "..";
  }

  lemma ParentPieces()
    ensures Clean(Split("/..", '/')) == [".."]
  {
    assert Join(["", ".."], '/') == "/..";
    JoinSplit(["", ".."], '/');
    assert ["", ".."][1..] == [".."];
  }

  function CwdSpec(c: Control, dir: string): (r: Control)
    ensures r.requests == c.requests + [ChangeDir(CwdTarget(c.currentDir, dir))]
  {
    c.(requests := c.requests + [ChangeDir(CwdTarget(c.currentDir, dir))])
  }

  /** The file system's answer for a CWD target: only a readable directory
    * becomes the current directory. */
  function CwdDoneSpec(c: Control, newDir: string, check: DirCheck): (r: Control)
    ensures r.currentDir == (if check == IsDirectory then newDir else c.currentDir)
  {
    match check
    case NotAccessible => Reply(c, "550 Directory not accessible")
    case NotDirectory => Reply(c, "550 Not a directory")
    case IsDirectory => Reply(c.(currentDir := newDir), "250 Directory changed to " + newDir)
  }

  // ---------------------------------------------------------------------
  // PASV
  // ---------------------------------------------------------------------

  /** The host fields of the PASV reply: the local address split at its
    * dots, or 127,0,0,1 for an IPv6 address. */
  function HostFields(localIp: string): (r: seq<string>)
    ensures |r| >= 1
  {
    if ':' in localIp then ["127", "0", "0", "1"] else Split(localIp, '.')
  }

  const PASV_REPLY: string := "227 Entering Passive Mode ("

  /** h1,h2,h3,h4,p1,p2 with p1 * 256 + p2 the listening port. */
  function PasvNumbers(localIp: string, port: nat): string
  {
    Join(HostFields(localIp), ',') + "," + Decimal(port / 256) + "," + Decimal(port % 256)
  }

  /** The listener is up: the reply carries its address, passive mode on. */
  function ListeningSpec(c: Control, port: nat): (r: Control)
    ensures r.passive
  {
    Reply(c, PASV_REPLY + PasvNumbers(c.localIp, port) + ")").(passive := true)
  }

  /** The six numbers a PASV reply announces, sent back in a PORT command,
    * designate the same host and port (RFC 959 section 4.1.2). */
  lemma PasvPortAgree(c: Control, localIp: string, port: nat)
    requires ':' in localIp || (|Split(localIp, '.')| == 4 && ',' !in localIp)
    ensures var r := PortSpec(c, PasvNumbers(localIp, port));
            r.dataPort == PortNumber(port) && !r.passive &&
            r.dataHost == Some(if ':' in localIp then "127.0.0.1" else localIp)
  {
    var h := HostFields(localIp);
    var a, b := Decimal(port / 256), Decimal(port % 256);
    var fields := h + [a, b];
    PasvFields(localIp, port);
    HostJoin(localIp);
    SixFields(h, a, b);
    PortAgreeFields(c, PasvNumbers(localIp, port), fields, if ':' in localIp then "127.0.0.1" else localIp, port);
  }

  /** A host of four comma-free fields and two decimal numbers are six
    * comma-free fields. */
  lemma SixFields(h: seq<string>, a: string, b: string)
    requires |h| == 4 && (forall k :: 0 <= k < 4 ==> ',' !in h[k]) && AllDigits(a) && AllDigits(b)
    ensures var fields := h + [a, b];
            (forall k :: 0 <= k < 6 ==> ',' !in fields[k]) && fields[..4] == h
  {
    var fields := h + [a, b];
    assert forall k :: 0 <= k < 4 ==> fields[k] == h[k];
    assert fields[4] == a && fields[5] == b;
  }

  /** PORT on six comma-free fields: a host of four, a port as two
    * decimal bytes. */
  lemma PortAgreeFields(c: Control, args: string, fields: seq<string>, host: string, port: nat)
    requires |fields| == 6 && (forall k :: 0 <= k < 6 ==> ',' !in fields[k]) && args == Join(fields, ',')
    requires Join(fields[..4], '.') == host && fields[4] == Decimal(port / 256) && fields[5] == Decimal(port % 256)
    ensures var r := PortSpec(c, args);
            r.dataPort == PortNumber(port) && !r.passive && r.dataHost == Some(host)
  {
    PortOfFields(c, fields);
    PortValueDecimal(port / 256, port % 256);
    assert port / 256 * 256 + port % 256 == port;
  }

  /** The port of two decimal fields. */
  lemma PortValueDecimal(hi: nat, lo: nat)
    ensures PortValue(Decimal(hi), Decimal(lo)) == PortNumber(hi * 256 + lo)
  {
    ParseDecimal(hi);
    ParseDecimal(lo);
  }

  /** The host fields of a PASV reply: four of them, without commas,
    * joined by dots into the host a PORT command designates. */
  lemma HostJoin(localIp: string)
    requires ':' in localIp || (|Split(localIp, '.')| == 4 && ',' !in localIp)
    ensures var h := HostFields(localIp);
            |h| == 4 && (forall k :: 0 <= k < 4 ==> ',' !in h[k]) &&
            Join(h, '.') == if ':' in localIp then "127.0.0.1" else localIp
  {
    var h := HostFields(localIp);
    if ':' !in localIp {
      SplitPieces(localIp, '.');
      SplitJoin(localIp, '.');
      assert forall k :: 0 <= k < |h| ==> ',' !in h[k];
    } else {
      LoopbackJoin('.');
    }
  }

  /** PORT on six comma-free fields takes the first four as the host and
    * the last two as the port. */
  lemma PortOfFields(c: Control, fields: seq<string>)
    requires |fields| == 6 && forall k :: 0 <= k < 6 ==> ',' !in fields[k]
    ensures var r := PortSpec(c, Join(fields, ','));
            r.dataHost == Some(Join(fields[..4], '.')) && r.dataPort == PortValue(fields[4], fields[5]) && !r.passive
  {
    JoinSplit(fields, ',');
  }

  /** The PASV numbers are the host fields and the two port bytes joined by
    * commas. */
  lemma PasvFields(localIp: string, port: nat)
    ensures PasvNumbers(localIp, port) ==
            Join(HostFields(localIp) + [Decimal(port / 256), Decimal(port % 256)], ',')
  {
    var h := HostFields(localIp);
    var a, b := Decimal(port / 256), Decimal(port % 256);
    JoinSnoc(h, a, ',');
    JoinSnoc(h + [a], b, ',');
    assert h + [a] + [b] == h + [a, b];
    var j := Join(h, ',');
    assert j + "," + a + "," + b == (j + [','] + a) + [','] + b;
  }

  /** The two forms of the PASV reply handlePasv builds are the reply
    * with the PASV numbers. */
  lemma PasvText(localIp: string, port: nat)
    ensures var numbers := "," + Decimal(port / 256) + "," + Decimal(port % 256) + ")";
            var m := PASV_REPLY + PasvNumbers(localIp, port) + ")";
            (':' in localIp ==> PASV_REPLY + "127,0,0,1" + numbers == m) &&
            (':' !in localIp ==> PASV_REPLY + Join(Split(localIp, '.'), ',') + numbers == m)
  {
    var j, d1, d2 := Join(HostFields(localIp), ','), Decimal(port / 256), Decimal(port % 256);
    assert PASV_REPLY + (j + "," + d1 + "," + d2) + ")" == PASV_REPLY + j + ("," + d1 + "," + d2 + ")");
    if ':' in localIp {
      LoopbackJoin(',');
      assert j == "127,0,0,1";
    }
  }

  /** The loopback fields of an IPv6 listener, joined by any separator. */
  lemma LoopbackJoin(sep: char)
    ensures Join(["127", "0", "0", "1"], sep) == "127" + [sep] + "0" + [sep] + "0" + [sep] + "1"
  {
    var p2, p1 := ["0", "1"], ["0", "0", "1"];
    assert Join(p2, sep) == "0" + [sep] + "1" by { assert p2[1..] == ["1"]; }
    assert Join(p1, sep) == "0" + [sep] + "0" + [sep] + "1" by { assert p1[1..] == p2; }
    assert ["127", "0", "0", "1"][1..] == p1;
  }

  // ---------------------------------------------------------------------
  // Dispatch
  // ---------------------------------------------------------------------

  /** The commands that read the user configuration; they throw when the
    * worker has none. */
  const NEEDS_CONFIG: set<string> := {"USER", "PASS", "LIST", "CWD", "CDUP", "RETR", "STOR", "DELE", "RMD", "MKD"}

  /** A command that passed the gates. */
  function Dispatch(c: Control, config: Option<UserConfig>, cmd: string, args: string): (r: Outcome<Control>)
    requires cmd in HANDLERS
    ensures r.Threw? <==> cmd in NEEDS_CONFIG && config.None?
  {
    if cmd in NEEDS_CONFIG && config.None? then Threw
    else if cmd == "USER" then Returned(UserSpec(c, config.value, args))
    else if cmd == "PASS" then Returned(PassSpec(c, config.value, args))
    else if cmd == "SYST" then Returned(Reply(c, "215 UNIX Type: L8"))
    else if cmd == "PWD" then Returned(Reply(c, "257 \"" + c.currentDir + "\" is the current directory"))
    else if cmd == "TYPE" then Returned(TypeSpec(c, args))
    else if cmd == "PASV" then Returned(c.(requests := c.requests + [Listen]))
    else if cmd == "PORT" then Returned(PortSpec(c, args))
    else if cmd == "CWD" then Returned(CwdSpec(c, args))
    else if cmd == "CDUP" then Returned(CwdSpec(c, ".."))
    else if cmd == "QUIT" then Returned(QuitSpec(c))
    else if cmd == "FEAT" then Returned(FeatSpec(c))
    else if cmd == "OPTS" then Returned(OptsSpec(c, args))
    else if cmd == "NOOP" then Returned(Reply(c, "200 NOOP command successful"))
    else Returned(c.(requests := c.requests + [FileRequest(cmd, args, c.currentDir)]))
  }

  /** handleCommand: an unknown command is not implemented, a known one
    * needs a login unless it is served before login. */
  function CommandSpec(c: Control, config: Option<UserConfig>, cmd: string, args: string): (r: Outcome<Control>)
    ensures cmd !in HANDLERS ==> r == Returned(Reply(c, "502 Command '" + cmd + "' not implemented"))
    ensures cmd in HANDLERS && !c.authenticated && cmd !in NO_AUTH ==> r == Returned(Reply(c, "530 Not logged in"))
  {
    if cmd !in HANDLERS then Returned(Reply(c, "502 Command '" + cmd + "' not implemented"))
    else if !c.authenticated && cmd !in NO_AUTH then Returned(Reply(c, "530 Not logged in"))
    else Dispatch(c, config, cmd, args)
  }

  /** processMessage: trim, split off the command word, upper-case it, and
    * answer 500 when the handler throws. */
  function ProcessSpec(c: Control, config: Option<UserConfig>, message: string): Control
  {
    var command := ValidationCommon.Trim(message);
    match CommandSpec(c, config, Upper(CommandWord(command)), CommandArgs(command))
    case Returned(d) => d
    case Threw => Reply(c, "500 Error processing command")
  }

  /** The complete lines in order; empty ones are skipped. */
  function ProcessAll(c: Control, config: Option<UserConfig>, lines: seq<string>): Control
  {
    if lines == [] then c
    else
      ProcessLineSpec(ProcessAll(c, config, Init(lines)), config, Last(lines))
  }

  /** One line of recvMsg's loop: an empty one is skipped. */
  function ProcessLineSpec(c: Control, config: Option<UserConfig>, line: string): Control
  {
    if line == "" then c else ProcessSpec(c, config, line)
  }

  /** One more line for ProcessAll. */
  lemma ProcessAllStep(c: Control, config: Option<UserConfig>, lines: seq<string>, i: nat)
    requires i < |lines|
    ensures ProcessAll(c, config, lines[..i + 1]) == ProcessLineSpec(ProcessAll(c, config, lines[..i]), config, lines[i])
  {
    assert Init(lines[..i + 1]) == lines[..i] && Last(lines[..i + 1]) == lines[i];
  }

  /** The control state and receive buffer after a recvMsg. */
  datatype Received = Received(control: Control, buffer: string)

  /** recvMsg: every complete line is processed, the unterminated rest is
    * kept. */
  function RecvSpec(c: Control, config: Option<UserConfig>, buffer: string, data: string): Received
  {
    var pieces := CrlfPieces(buffer + data);
    Received(ProcessAll(c, config, Init(pieces)), Last(pieces))
  }

  // ---------------------------------------------------------------------
  // Properties of the control connection
  // ---------------------------------------------------------------------

  lemma {:induction false} ProcessAllAppend(c: Control, config: Option<UserConfig>, a: seq<string>, b: seq<string>)
    ensures ProcessAll(c, config, a + b) == ProcessAll(ProcessAll(c, config, a), config, b)
  {
    if b == [] {
      assert a + b == a;
    } else {
      ProcessAllAppend(c, config, a, Init(b));
      assert Init(a + b) == a + Init(b) && Last(a + b) == Last(b);
    }
  }

  /** What recvMsg consumes is exactly its complete lines, each with its
    * CR LF, in order; what it keeps holds no CR LF. */
  lemma RecvFraming(c: Control, config: Option<UserConfig>, buffer: string, data: string)
    ensures var pieces := CrlfPieces(buffer + data);
            var r := RecvSpec(c, config, buffer, data);
            buffer + data == Terminated(Init(pieces)) + r.buffer && NoCrlf(r.buffer) &&
            (forall k :: 0 <= k < |pieces| - 1 ==> NoCrlf(pieces[k])) &&
            r.control == ProcessAll(c, config, Init(pieces))
  {
    var pieces := CrlfPieces(buffer + data);
    CrlfPiecesJoin(buffer + data);
    JoinCrlfTerminated(pieces);
    CrlfPiecesClean(buffer + data);
  }

  /** How the byte stream is cut into chunks does not matter: two recvMsg
    * calls do what one call with both chunks does. */
  lemma RecvChunks(c: Control, config: Option<UserConfig>, buffer: string, a: string, b: string)
    ensures var r1 := RecvSpec(c, config, buffer, a);
            RecvSpec(r1.control, config, r1.buffer, b) == RecvSpec(c, config, buffer, a + b)
  {
    var p := CrlfPieces(buffer + a);
    var q := CrlfPieces(Last(p) + b);
    CrlfPiecesAppend(buffer + a, b);
    assert buffer + (a + b) == (buffer + a) + b;
    var all := CrlfPieces(buffer + (a + b));
    assert all == Init(p) + q;
    assert Init(all) == Init(p) + Init(q) && Last(all) == Last(q);
    ProcessAllAppend(c, config, Init(p), Init(q));
  }

  /** Before login nothing but USER, PASS, SYST, FEAT, QUIT, NOOP and OPTS
    * does anything besides a reply. */
  lemma LoginGate(c: Control, config: Option<UserConfig>, cmd: string, args: string)
    requires !c.authenticated && cmd !in NO_AUTH
    ensures var r := CommandSpec(c, config, cmd, args);
            r.Returned? && r.value.(replies := c.replies) == c &&
            r.value.replies == c.replies + (if c.connected then
              [if cmd in HANDLERS then "530 Not logged in" else "502 Command '" + cmd + "' not implemented"] else [])
  {
  }

  /** Only a PASS with the configured password, after USER gave the
    * configured name, logs a session in. */
  lemma OnlyPassLogsIn(c: Control, config: Option<UserConfig>, cmd: string, args: string)
    requires !c.authenticated
    requires CommandSpec(c, config, cmd, args).Returned?
    requires CommandSpec(c, config, cmd, args).value.authenticated
    ensures cmd == "PASS" && config.Some? && c.username == Some(config.value.username) && args == config.value.password
  {
    assert cmd in HANDLERS && cmd in NO_AUTH;
    if cmd == "PASS" {
      PassMatch(c, config.value, args);
    } else {
      NoAuthKeepsLogin(c, config, cmd, args);
    }
  }

  /** The commands served before login, other than PASS, leave the login
    * as it was. */
  lemma NoAuthKeepsLogin(c: Control, config: Option<UserConfig>, cmd: string, args: string)
    requires cmd in NO_AUTH && cmd != "PASS"
    requires Dispatch(c, config, cmd, args).Returned?
    ensures Dispatch(c, config, cmd, args).value.authenticated == c.authenticated
  {
    if cmd == "USER" {
    } else if cmd == "SYST" {
    } else if cmd == "QUIT" {
    } else if cmd == "FEAT" {
    } else if cmd == "OPTS" {
    } else {
      assert cmd == "NOOP";
    }
  }

  /** PASS logs in exactly when the kept user name and the password match,
    * and then starts at the root; otherwise nothing changes. */
  lemma PassMatch(c: Control, u: UserConfig, password: string)
    ensures var r := PassSpec(c, u, password);
            var ok := c.username == Some(u.username) && password == u.password;
            (r.authenticated <==> c.authenticated || ok) &&
            (ok ==> r.currentDir == "/") &&
            (!ok ==> r.(replies := c.replies) == c)
  {
  }

  /** TYPE sets the transfer type for A and I only; anything else leaves the
    * session as it was, with a 504. */
  lemma TypeModes(c: Control, t: string)
    ensures var r := TypeSpec(c, t);
            (t == "A" ==> r.transferType == Ascii) && (t == "I" ==> r.transferType == Binary) &&
            (t != "A" && t != "I" ==> r == Reply(c, "504 Type not implemented"))
  {
  }

  /** PORT with other than six comma-separated fields changes nothing but
    * the 501; with six it replies 200 and sets the host and p5 * 256 + p6. */
  lemma PortFields(c: Control, args: string)
    ensures var r := PortSpec(c, args);
            var parts := Split(args, ',');
            (|parts| != 6 ==> r == Reply(c, "501 Invalid PORT command")) &&
            (|parts| == 6 ==> !r.passive && r.dataPort == PortValue(parts[4], parts[5]) &&
                              r.dataHost == Some(Join(parts[..4], '.')) &&
                              r.replies == Reply(c, "200 PORT command successful").replies)
  {
  }

  /** The segment loop of handleCwd: '..' pops the stack, anything else
    * is pushed. */
  method ResolveSegments(segments: seq<string>) returns (stack: seq<string>)
    ensures stack == Resolve(segments)
  {
    stack := [];
    var i := 0;
    while i < |segments|
      invariant 0 <= i <= |segments|
      invariant stack == Resolve(segments[..i])
    {
      ResolveStep(segments, i);
      if segments[i] == ".." {
        if stack != [] {
          stack := stack[..|stack| - 1];
        }
      } else {
        stack := stack + [segments[i]];
      }
      i := i + 1;
    }
    assert segments[..i] == segments;
  }

  // ---------------------------------------------------------------------
  // The session object
  // ---------------------------------------------------------------------

  class Session {
    const config: Option<UserConfig>
    var connected: bool
    var authenticated: bool
    var username: Option<string>
    var currentDir: string
    var transferType: TransferType
    var dataHost: Option<string>
    var dataPort: DataPort
    var passive: bool
    var localIp: string
    var replies: seq<string>
    var requests: seq<Request>
    var messageBuffer: string

    function Snapshot(): Control
      reads this
    {
      Control(connected, authenticated, username, currentDir, transferType, dataHost, dataPort, passive,
              localIp, replies, requests)
    }

    constructor(config: Option<UserConfig>)
      ensures Snapshot() == Initial() && messageBuffer == [] && this.config == config
    {
      this.config := config;
      connected, authenticated, username, currentDir := false, false, None, "/";
      transferType, dataHost, dataPort, passive := Ascii, None, NoPort, false;
      localIp, replies, requests := "", [], [];
      messageBuffer := [];
    }

    /** The worker attaches the accepted socket. */
    method Attach(ip: string)
      modifies this
      ensures Snapshot() == AttachSpec(old(Snapshot()), ip) && messageBuffer == old(messageBuffer)
    {
      connected := true;
      localIp := ip;
      SendMsg("220  Welcome to the Mini Tools FTP server");
    }

    method SendMsg(msg: string)
      modifies this
      ensures Snapshot() == Reply(old(Snapshot()), msg) && messageBuffer == old(messageBuffer)
    {
      if connected {
        replies := replies + [msg];
      }
    }

    method HandleUser(u: UserConfig, name: string)
      modifies this
      ensures Snapshot() == UserSpec(old(Snapshot()), u, name) && messageBuffer == old(messageBuffer)
    {
      if u.username == name {
        username := Some(name);
        SendMsg("331 Username OK, password required");
      } else {
        SendMsg("530 Authentication failed");
      }
    }

    method HandlePass(u: UserConfig, password: string)
      modifies this
      ensures Snapshot() == PassSpec(old(Snapshot()), u, password) && messageBuffer == old(messageBuffer)
    {
      if username.Some? && u.username == username.value && u.password == password {
        authenticated := true;
        currentDir := "/";
        SendMsg("230 User logged in, proceed");
      } else {
        SendMsg("530 Authentication failed");
      }
    }

    method HandleType(t: string)
      modifies this
      ensures Snapshot() == TypeSpec(old(Snapshot()), t) && messageBuffer == old(messageBuffer)
    {
      if t == "A" {
        transferType := Ascii;
        SendMsg("200 Type set to ASCII");
      } else if t == "I" {
        transferType := Binary;
        SendMsg("200 Type set to binary");
      } else {
        SendMsg("504 Type not implemented");
      }
    }

    method HandlePort(args: string)
      modifies this
      ensures Snapshot() == PortSpec(old(Snapshot()), args) && messageBuffer == old(messageBuffer)
    {
      var parts := Split(args, ',');
      if |parts| != 6 {
        SendMsg("501 Invalid PORT command");
        return;
      }
      dataHost := Some(Join(parts[..4], '.'));
      dataPort := PortValue(parts[4], parts[5]);
      passive := false;
      SendMsg("200 PORT command successful");
    }

    /** handleCwd up to the file-system check: the target path, with its
      * segments resolved on a stack. */
    method HandleCwd(dir: string)
      modifies this
      ensures Snapshot() == CwdSpec(old(Snapshot()), dir) && messageBuffer == old(messageBuffer)
    {
      var newDir := Combined(currentDir, dir);
      var stack := ResolveSegments(Clean(Split(newDir, '/')));
      requests := requests + [ChangeDir(Rooted(stack))];
    }

    /** The file system answered for a CWD target. */
    method CwdChecked(newDir: string, check: DirCheck)
      modifies this
      ensures Snapshot() == CwdDoneSpec(old(Snapshot()), newDir, check) && messageBuffer == old(messageBuffer)
    {
      match check
      case NotAccessible => SendMsg("550 Directory not accessible");
      case NotDirectory => SendMsg("550 Not a directory");
      case IsDirectory =>
        currentDir := newDir;
        SendMsg("250 Directory changed to " + newDir);
    }

    /** The passive listener is up on the given port. */
    method PassiveListening(port: nat)
      modifies this
      ensures Snapshot() == ListeningSpec(old(Snapshot()), port) && messageBuffer == old(messageBuffer)
    {
      var p1 := port / 256;
      var p2 := port % 256;
      var numbers := "," + Decimal(p1) + "," + Decimal(p2) + ")";
      PasvText(localIp, port);
      if ':' in localIp {
        SendMsg(PASV_REPLY + "127,0,0,1" + numbers);
      } else {
        SendMsg(PASV_REPLY + Join(Split(localIp, '.'), ',') + numbers);
      }
      passive := true;
    }

    method HandleQuit()
      modifies this
      ensures Snapshot() == QuitSpec(old(Snapshot())) && messageBuffer == old(messageBuffer)
    {
      SendMsg("221 Goodbye");
      passive := false;
      connected := false;
    }

    method HandleFeat()
      modifies this
      ensures Snapshot() == FeatSpec(old(Snapshot())) && messageBuffer == old(messageBuffer)
    {
      SendMsg("211-Features:");
      SendMsg(" UTF8");
      SendMsg(" SIZE");
      SendMsg(" PASV");
      SendMsg(" TYPE A;I");
      SendMsg("211 End");
    }

    method HandleOpts(args: string)
      modifies this
      ensures Snapshot() == OptsSpec(old(Snapshot()), args) && messageBuffer == old(messageBuffer)
    {
      var parts := Split(args, ' ');
      if Upper(parts[0]) == "UTF8" {
        SendMsg("200 UTF8 set to ON");
      } else {
        SendMsg("501 Option not supported");
      }
    }

    /** handleCommand; `threw` reports the exception a handler raised. */
    method HandleCommand(cmd: string, args: string) returns (threw: bool)
      modifies this
      ensures threw <==> CommandSpec(old(Snapshot()), config, cmd, args).Threw?
      ensures !threw ==> Snapshot() == CommandSpec(old(Snapshot()), config, cmd, args).value
      ensures threw ==> Snapshot() == old(Snapshot())
      ensures messageBuffer == old(messageBuffer)
    {
      threw := false;
      if cmd !in HANDLERS {
        SendMsg("502 Command '" + cmd + "' not implemented");
      } else if !authenticated && cmd !in NO_AUTH {
        SendMsg("530 Not logged in");
      } else if cmd in NEEDS_CONFIG && config.None? {
        threw := true;
      } else {
        HandleKnown(cmd, args);
      }
    }

    /** handlers[cmd](args) for a command that passed the gates. */
    method HandleKnown(cmd: string, args: string)
      requires cmd in HANDLERS && (cmd in NEEDS_CONFIG ==> config.Some?)
      modifies this
      ensures Snapshot() == Dispatch(old(Snapshot()), config, cmd, args).value
      ensures messageBuffer == old(messageBuffer)
    {
      if cmd == "USER" {
        HandleUser(config.value, args);
      } else if cmd == "PASS" {
        HandlePass(config.value, args);
      } else if cmd == "SYST" {
        SendMsg("215 UNIX Type: L8");
      } else if cmd == "PWD" {
        SendMsg("257 \"" + currentDir + "\" is the current directory");
      } else if cmd == "TYPE" {
        HandleType(args);
      } else if cmd == "PASV" {
        requests := requests + [Listen];
      } else if cmd == "PORT" {
        HandlePort(args);
      } else if cmd == "CWD" {
        HandleCwd(args);
      } else if cmd == "CDUP" {
        HandleCwd("..");
      } else if cmd == "QUIT" {
        HandleQuit();
      } else if cmd == "FEAT" {
        HandleFeat();
      } else if cmd == "OPTS" {
        HandleOpts(args);
      } else if cmd == "NOOP" {
        SendMsg("200 NOOP command successful");
      } else {
        requests := requests + [FileRequest(cmd, args, currentDir)];
      }
    }

    method ProcessMessage(message: string)
      modifies this
      ensures Snapshot() == ProcessSpec(old(Snapshot()), config, message) && messageBuffer == old(messageBuffer)
    {
      var command := ValidationCommon.Trim(message);
      var parts := Split(command, ' ');
      var cmd := Upper(parts[0]);
      var args := if |parts| == 1 then "" else Join(parts[1..], ' ');
      var threw := HandleCommand(cmd, args);
      if threw {
        SendMsg("500 Error processing command");
      }
    }

    method RecvMsg(data: string)
      modifies this
      ensures Received(Snapshot(), messageBuffer) == RecvSpec(old(Snapshot()), config, old(messageBuffer), data)
    {
      messageBuffer := messageBuffer + data;
      var messages := CrlfPieces(messageBuffer);
      if |messages| > 1 {
        messageBuffer := messages[|messages| - 1];
        ProcessLines(messages[..|messages| - 1]);
      } else {
        CrlfPiecesJoin(messageBuffer);
        assert Init(messages) == [];
      }
    }

    /** The loop of recvMsg over the complete lines. */
    method ProcessLines(lines: seq<string>)
      modifies this
      ensures Snapshot() == ProcessAll(old(Snapshot()), config, lines) && messageBuffer == old(messageBuffer)
    {
      ghost var start := Snapshot();
      var i := 0;
      while i < |lines|
        invariant 0 <= i <= |lines|
        invariant messageBuffer == old(messageBuffer)
        invariant Snapshot() == ProcessAll(start, config, lines[..i])
      {
        ProcessAllStep(start, config, lines, i);
        ProcessLine(lines[i]);
        i := i + 1;
      }
      assert lines[..i] == lines;
    }

    /** One line of the loop: empty ones are skipped. */
    method ProcessLine(line: string)
      modifies this
      ensures Snapshot() == ProcessLineSpec(old(Snapshot()), config, line) && messageBuffer == old(messageBuffer)
    {
      if |line| > 0 {
        ProcessMessage(line);
      }
    }
  }
}
