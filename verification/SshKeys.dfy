/** The SSH keys handler's input: one `user:key` pair on each line. */
module SshKeys {
  import opened Text

  datatype User = User(name: string, sshKey: string)

  datatype Error = WrongSshKeyFormat | EmptyUserName

  datatype Result<+T> = Ok(value: T) | Err(error: Error)

  /** What one trimmed, non-blank line says. */
  function ParseLine(line: string): Result<User> {
    var parts := Split(line, ':');
    if |parts| != 2 then Err(WrongSshKeyFormat)
    else if parts[0] == "" then Err(EmptyUserName)
    else Ok(User(parts[0], parts[1]))
  }

  /** All lines in order; blank ones are passed over and the first bad one ends it. */
  function ParseLines(lines: seq<string>): Result<seq<User>> {
    if lines == [] then Ok([])
    else
      match ParseLines(lines[..|lines| - 1])
      case Err(e) => Err(e)
      case Ok(users) =>
        var line := Trim(lines[|lines| - 1], ' ');
        if line == "" then Ok(users)
        else match ParseLine(line)
          case Err(e) => Err(e)
          case Ok(user) => Ok(users + [user])
  }

  method ParseSshKeys(data: string) returns (r: Result<seq<User>>)
    ensures r == ParseLines(Split(data, '\n'))
  {
    var users: seq<User> := [];
    var lines := Split(data, '\n');
    for i := 0 to |lines|
      invariant ParseLines(lines[..i]) == Ok(users)
    {
      assert lines[..i + 1][..i] == lines[..i];
      var line := Trim(lines[i], ' ');
      if line == "" { continue; }
      var parts := Split(line, ':');
      if |parts| != 2 {
        BadLineStays(lines, i + 1, WrongSshKeyFormat);
        return Err(WrongSshKeyFormat);
      }
      if parts[0] == "" {
        BadLineStays(lines, i + 1, EmptyUserName);
        return Err(EmptyUserName);
      }
      users := users + [User(parts[0], parts[1])];
    }
    assert lines[..|lines|] == lines;
    return Ok(users);
  }

  lemma {:induction false} BadLineStays(lines: seq<string>, i: nat, e: Error)
    requires i <= |lines| && ParseLines(lines[..i]) == Err(e)
    ensures ParseLines(lines) == Err(e)
    decreases |lines| - i
  {
    if i == |lines| {
      assert lines[..i] == lines;
    } else {
      assert lines[..i + 1][..i] == lines[..i];
      BadLineStays(lines, i + 1, e);
    }
  }

  /** A line that is blank once its outer spaces are gone. */
  predicate Blank(line: string) {
    Trim(line, ' ') == ""
  }

  /** Exactly one colon, and not at the start. */
  predicate WellFormed(line: string) {
    line != "" && Count(line, ':') == 1 && line[0] != ':'
  }

  lemma ParseLineSucceeds(line: string)
    requires line != ""
    ensures ParseLine(line).Ok? <==> WellFormed(line)
    ensures ParseLine(line).Ok? ==>
              line == ParseLine(line).value.name + ":" + ParseLine(line).value.sshKey
  {
    SplitCounts(line, ':');
    var i := IndexOf(line, ':');
    if |Split(line, ':')| == 2 {
      var rest := line[i + 1..];
      assert Split(line, ':') == [line[..i]] + Split(rest, ':');
      assert |Split(rest, ':')| == 1 && Split(rest, ':')[0] == rest;
      assert line == line[..i] + [line[i]] + rest;
      assert line[..i] == "" <==> line[0] == ':';
    }
  }

  /** Parsing fails iff some line that is not blank lacks exactly one colon or names no user. */
  lemma {:induction false} ParseSucceeds(lines: seq<string>)
    ensures ParseLines(lines).Ok? <==> forall l | l in lines :: Blank(l) || WellFormed(Trim(l, ' '))
  {
    if lines != [] {
      var before, last := lines[..|lines| - 1], lines[|lines| - 1];
      ParseSucceeds(before);
      assert lines == before + [last];
      if !Blank(last) {
        ParseLineSucceeds(Trim(last, ' '));
      }
    }
  }

  /** What is wrong with a line: not exactly one colon, or nothing before it. */
  predicate Wrong(line: string, e: Error) {
    match e
    case WrongSshKeyFormat => Count(line, ':') != 1
    case EmptyUserName => Count(line, ':') == 1 && line[0] == ':'
  }

  lemma LineError(line: string, e: Error)
    requires line != ""
    ensures ParseLine(line) == Err(e) <==> Wrong(line, e)
  {
    SplitCounts(line, ':');
    ParseLineSucceeds(line);
    var i := IndexOf(line, ':');
    if |Split(line, ':')| == 2 {
      assert Split(line, ':') == [line[..i]] + Split(line[i + 1..], ':');
      assert line[..i] == "" <==> line[0] == ':';
    }
  }

  /** The error is that of the first line that is wrong. */
  lemma {:induction false} FirstErrorWins(lines: seq<string>, e: Error)
    ensures ParseLines(lines) == Err(e) <==>
              exists i: nat :: && i < |lines| && !Blank(lines[i]) && Wrong(Trim(lines[i], ' '), e)
                               && forall l | l in lines[..i] :: Blank(l) || WellFormed(Trim(l, ' '))
  {
    if lines != [] {
      var before, last := lines[..|lines| - 1], lines[|lines| - 1];
      FirstErrorWins(before, e);
      ParseSucceeds(before);
      if !Blank(last) {
        LineError(Trim(last, ' '), WrongSshKeyFormat);
        LineError(Trim(last, ' '), EmptyUserName);
        ParseLineSucceeds(Trim(last, ' '));
      }
      assert forall i: nat | i < |before| :: before[..i] == lines[..i] && before[i] == lines[i];
      if ParseLines(before).Err? {
        FirstErrorStays(lines, before, e);
      } else {
        assert lines[..|before|] == before;
        forall i: nat | i < |before| ensures Blank(lines[i]) || WellFormed(Trim(lines[i], ' ')) {
          assert before[i] in before;
        }
      }
    }
  }

  lemma FirstErrorStays(lines: seq<string>, before: seq<string>, e: Error)
    requires before <= lines && |lines| == |before| + 1 && ParseLines(before).Err?
    ensures !forall l | l in lines[..|before|] :: Blank(l) || WellFormed(Trim(l, ' '))
  {
    assert lines[..|before|] == before;
    ParseSucceeds(before);
  }

  /** Names and keys that survive being written out: the colon and the line end separate, and
      outer spaces of a line are cut off. */
  predicate Printable(u: User) {
    && u.name != "" && ':' !in u.name && '\n' !in u.name && u.name[0] != ' '
    && ':' !in u.sshKey && '\n' !in u.sshKey && (u.sshKey != "" ==> u.sshKey[|u.sshKey| - 1] != ' ')
  }

  function PrintUser(u: User): string {
    u.name + ":" + u.sshKey
  }

  function PrintLines(users: seq<User>): seq<string> {
    if users == [] then [] else PrintLines(users[..|users| - 1]) + [PrintUser(users[|users| - 1])]
  }

  function Print(users: seq<User>): string {
    Join(PrintLines(users), '\n')
  }

  lemma PrintedUserParses(u: User)
    requires Printable(u)
    ensures Trim(PrintUser(u), ' ') == PrintUser(u) && '\n' !in PrintUser(u)
    ensures ParseLine(PrintUser(u)) == Ok(u)
  {
    var line := PrintUser(u);
    assert line == u.name + [':'] + u.sshKey;
    assert line[|line| - 1] == if u.sshKey == "" then ':' else u.sshKey[|u.sshKey| - 1];
    FirstPart(u.name, ':', u.sshKey);
    assert Split(line, ':') == [u.name] + Split(u.sshKey, ':');
  }

  lemma {:induction false} PrintedLinesParse(users: seq<User>)
    requires forall u | u in users :: Printable(u)
    ensures |PrintLines(users)| == |users| && forall l | l in PrintLines(users) :: '\n' !in l
    ensures ParseLines(PrintLines(users)) == Ok(users)
  {
    if users != [] {
      var before, u := users[..|users| - 1], users[|users| - 1];
      assert users == before + [u];
      PrintedLinesParse(before);
      PrintedUserParses(u);
      assert (PrintLines(before) + [PrintUser(u)])[..|before|] == PrintLines(before);
    }
  }

  /** Parsing undoes printing. */
  lemma ParseUndoesPrint(users: seq<User>)
    requires forall u | u in users :: Printable(u)
    ensures ParseLines(Split(Print(users), '\n')) == Ok(users)
  {
    PrintedLinesParse(users);
    if users == [] {
      assert ParseLines([""][..0]) == Ok([]);
    } else {
      SplitJoin(PrintLines(users), '\n');
    }
  }

  /** The lines that are not blank, without their outer spaces. */
  function Stripped(lines: seq<string>): seq<string> {
    if lines == [] then []
    else
      var last := lines[|lines| - 1];
      Stripped(lines[..|lines| - 1]) + if Blank(last) then [] else [Trim(last, ' ')]
  }

  /** Blank lines and the outer spaces of the others make no difference to what is parsed, nor to
      the error. */
  lemma {:induction false} ParseIgnoresSpaces(lines: seq<string>)
    ensures ParseLines(Stripped(lines)) == ParseLines(lines)
  {
    if lines != [] {
      var before, last := lines[..|lines| - 1], lines[|lines| - 1];
      ParseIgnoresSpaces(before);
      TrimTwice(last, ' ');
      if Blank(last) {
        assert Stripped(lines) == Stripped(before);
      } else {
        assert Stripped(lines) == Stripped(before) + [Trim(last, ' ')];
        assert Stripped(lines)[..|Stripped(before)|] == Stripped(before);
      }
    }
  }

  /** Whatever parses names a user and gives a key that is a single line, so that the key can be
      appended to an authorized_keys file. */
  lemma ParsedUsers(data: string, users: seq<User>, u: User)
    requires ParseLines(Split(data, '\n')) == Ok(users) && u in users
    ensures u.name != "" && ':' !in u.name && ':' !in u.sshKey
    ensures '\n' !in u.name && '\n' !in u.sshKey
  {
    var line := ParsedFrom(Split(data, '\n'), users, u);
    SplitParts(data, '\n', line);
    ParsedLine(line, u);
  }

  lemma ParsedLine(line: string, u: User)
    requires '\n' !in line && Trim(line, ' ') != "" && ParseLine(Trim(line, ' ')) == Ok(u)
    ensures u.name != "" && ':' !in u.name && ':' !in u.sshKey
    ensures '\n' !in u.name && '\n' !in u.sshKey
  {
    var trimmed := Trim(line, ' ');
    if '\n' in trimmed {
      TrimRightShrinks(TrimLeft(line, ' '), ' ', '\n');
      TrimLeftShrinks(line, ' ', '\n');
    }
    var parts := Split(trimmed, ':');
    assert parts[0] in parts && parts[1] in parts;
    SplitParts(trimmed, ':', parts[0]);
    SplitParts(trimmed, ':', parts[1]);
  }

  lemma {:induction false} ParsedFrom(lines: seq<string>, users: seq<User>, u: User) returns (line: string)
    requires ParseLines(lines) == Ok(users) && u in users
    ensures line in lines && Trim(line, ' ') != "" && ParseLine(Trim(line, ' ')) == Ok(u)
  {
    var before, last := lines[..|lines| - 1], lines[|lines| - 1];
    var earlier := ParseLines(before).value;
    if u in earlier {
      line := ParsedFrom(before, earlier, u);
    } else {
      line := last;
    }
  }
}
