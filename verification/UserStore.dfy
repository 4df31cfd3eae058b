/** `FileUserStore` of `access_control.cpp`: the user file and the map in memory. */
module UserStore {
  import opened Text
  import opened TextMode

  datatype Permission = NONE | READ | WRITE | EXECUTE | ADMIN | FULL

  datatype User = User(
    username: string, passwordHash: string, homeDirectory: string, permission: Permission, enabled: bool)

  type Users = map<string, User>

  // ---------------------------------------------------------------- one line

  function PermissionText(p: Permission): string {
    match p
    case READ => "read"
    case WRITE => "write"
    case ADMIN => "admin"
    case _ => "none"
  }

  function PermissionOf(s: string): Permission {
    if s == "read" then READ else if s == "write" then WRITE else if s == "admin" then ADMIN else NONE
  }

  function FlagText(enabled: bool): string { if enabled then "1" else "0" }

  function Fields(key: string, u: User): seq<string> {
    [key, u.passwordHash, u.homeDirectory, PermissionText(u.permission), FlagText(u.enabled)]
  }

  /** The fields between colons, the last one never empty. */
  function UserLine(key: string, u: User): string { Join(Fields(key, u), ":") }

  function ParseUser(line: string): Option<User> {
    var parts := Lines(line, ':');
    if |parts| < 5 then None
    else Some(User(parts[0], parts[1], parts[2], PermissionOf(parts[3]), parts[4] == "1" || parts[4] == "true"))
  }

  // ---------------------------------------------------------------- the file

  /** An iteration order of an `unordered_map`: every key once. */
  ghost predicate OrderOf(order: seq<string>, users: Users) {
    && (forall k :: k in order <==> k in users)
    && forall i, j :: 0 <= i < j < |order| ==> order[i] != order[j]
  }

  function UserLines(order: seq<string>, users: Users): seq<string>
    requires forall k :: k in order ==> k in users
  {
    seq(|order|, i requires 0 <= i < |order| => UserLine(order[i], users[order[i]]))
  }

  function FileText(order: seq<string>, users: Users): string
    requires forall k :: k in order ==> k in users
  {
    Terminated(UserLines(order, users), "\n")
  }

  /** What the text-mode stream leaves on the disk. */
  function DiskText(order: seq<string>, users: Users): string
    requires forall k :: k in order ==> k in users
  {
    WriteText(FileText(order, users))
  }

  lemma FileTextSnoc(order: seq<string>, key: string, users: Users)
    requires key in users && forall k :: k in order ==> k in users
    ensures FileText(order + [key], users) == FileText(order, users) + (UserLine(key, users[key]) + "\n")
  {
    TerminatedSnoc(UserLines(order, users), UserLine(key, users[key]), "\n");
    assert UserLines(order + [key], users) == UserLines(order, users) + [UserLine(key, users[key])];
  }

  function AddLine(users: Users, line: string): Users {
    match ParseUser(line)
    case None => users
    case Some(u) => users[u.username := u]
  }

  function AddLines(users: Users, lines: seq<string>): Users
    decreases lines
  {
    if lines == [] then users else AddLines(AddLine(users, lines[0]), lines[1..])
  }

  function LoadText(disk: string): Users { AddLines(map[], Lines(ReadText(disk), '\n')) }

  /** The store: the map, and the text of the file at the configured path if there is one. */
  class FileUserStore {
    var users: Users
    var file: Option<string>
    /** Whether the path can be opened for reading and for writing. */
    var readable: bool
    var writable: bool

    constructor (onDisk: Option<string>, canRead: bool, canWrite: bool)
      ensures file == onDisk && readable == canRead && writable == canWrite
      ensures users == if onDisk.Some? && canRead then LoadText(onDisk.value) else map[]
    {
      users, file, readable, writable := map[], onDisk, canRead, canWrite;
      new;
      LoadUsers();
    }

    method LoadUsers()
      modifies this`users
      ensures users ==
        if file.Some? && readable then AddLines(old(users), Lines(ReadText(file.value), '\n')) else old(users)
    {
      if file.None? || !readable { return; }
      var lines := Lines(ReadText(file.value), '\n');
      for k := 0 to |lines|
        invariant AddLines(old(users), lines) == AddLines(users, lines[k..])
      {
        assert lines[k..][1..] == lines[k + 1..];
        var parts := Lines(lines[k], ':');
        if |parts| < 5 { continue; }
        var permission := if parts[3] == "read" then READ else if parts[3] == "write" then WRITE
          else if parts[3] == "admin" then ADMIN else NONE;
        var user := User(parts[0], parts[1], parts[2], permission, parts[4] == "1" || parts[4] == "true");
        users := users[user.username := user];
      }
    }

    method SaveUsers() returns (ghost order: seq<string>)
      modifies this`file
      ensures OrderOf(order, users)
      ensures file == if writable then Some(DiskText(order, users)) else old(file)
    {
      if !writable {
        order := SomeOrder(users);
        return;
      }
      var text, left := "", users.Keys;
      order := [];
      while left != {}
        invariant left <= users.Keys && (forall k :: k in order <==> k in users && k !in left)
        invariant forall i, j :: 0 <= i < j < |order| ==> order[i] != order[j]
        invariant text == FileText(order, users)
        decreases |left|
      {
        var username :| username in left;
        var user := users[username];
        FileTextSnoc(order, username, users);
        LineText(username, user);
        var line := username + (":" + (user.passwordHash + (":" + (user.homeDirectory + (":" +
                      (PermissionText(user.permission) + (":" + FlagText(user.enabled))))))));
        text := text + (line + "\n");
        order := order + [username];
        left := left - {username};
      }
      file := Some(WriteText(text));
    }

    method AddUser(user: User) returns (ghost order: seq<string>)
      modifies this`users, this`file
      ensures users == old(users)[user.username := user]
      ensures OrderOf(order, users)
      ensures file == if writable then Some(DiskText(order, users)) else old(file)
    {
      users := users[user.username := user];
      order := SaveUsers();
    }
  }

  lemma SomeOrder(users: Users) returns (order: seq<string>)
    ensures OrderOf(order, users)
    decreases |users|
  {
    if users == map[] {
      order := [];
    } else {
      var k :| k in users;
      var rest := SomeOrder(users - {k});
      order := [k] + rest;
    }
  }

  lemma LineText(key: string, u: User)
    ensures UserLine(key, u) ==
            key + (":" + (u.passwordHash + (":" + (u.homeDirectory + (":" +
              (PermissionText(u.permission) + (":" + FlagText(u.enabled))))))))
  {
    FiveFields(key, u.passwordHash, u.homeDirectory, PermissionText(u.permission), FlagText(u.enabled));
  }

  // ---------------------------------------------------------------- one line, field by field

  /** The words for permissions: three have one of their own, and every other word is none. */
  lemma {:induction false} PermissionWords(p: Permission, word: string)
    ensures PermissionText(p) ==
      if p == READ then "read" else if p == WRITE then "write" else if p == ADMIN then "admin" else "none"
    ensures PermissionOf(word) ==
      if word == "read" then READ else if word == "write" then WRITE else if word == "admin" then ADMIN else NONE
  {}

  lemma FiveFields(a: string, b: string, c: string, d: string, e: string)
    ensures Join([a, b, c, d, e], ":") == a + (":" + (b + (":" + (c + (":" + (d + (":" + e)))))))
  {
    assert [a, b, c, d, e] == [a] + [b, c, d, e] && [b, c, d, e] == [b] + [c, d, e];
    assert [c, d, e] == [c] + [d, e] && [d, e] == [d] + [e];
    JoinHead(a, [b, c, d, e], ":");
    JoinHead(b, [c, d, e], ":");
    JoinHead(c, [d, e], ":");
    JoinHead(d, [e], ":");
    assert Join([e], ":") == e;
  }

  /** What a line of five fields says: name, hash, directory, permission, and whether the user is
      enabled.  More fields are ignored. */
  lemma LineIsRead(a: string, b: string, c: string, d: string, e: string, more: seq<string>)
    requires Free([a, b, c, d, e] + more, ':') && ([a, b, c, d, e] + more)[4 + |more|] != ""
    ensures ParseUser(Join([a, b, c, d, e] + more, ":")) == Some(User(a, b, c,
      if d == "read" then READ else if d == "write" then WRITE else if d == "admin" then ADMIN else NONE,
      e == "1" || e == "true"))
  {
    var fields := [a, b, c, d, e] + more;
    LinesOfJoined(fields, ':');
    assert fields[0] == a && fields[1] == b && fields[2] == c && fields[3] == d && fields[4] == e;
  }

  /** A line of fewer than five fields is skipped. */
  lemma ShortLineIsSkipped(fields: seq<string>)
    requires 0 < |fields| < 5 && Free(fields, ':') && fields[|fields| - 1] != ""
    ensures ParseUser(Join(fields, ":")) == None
  {
    LinesOfJoined(fields, ':');
  }

  /** What is written for a user: the same five fields. */
  lemma LineIsWritten(key: string, u: User)
    ensures UserLine(key, u) == key + (":" + (u.passwordHash + (":" + (u.homeDirectory + (":" + (
      (if u.permission == READ then "read" else if u.permission == WRITE then "write"
       else if u.permission == ADMIN then "admin" else "none") + (":" + (if u.enabled then "1" else "0"))))))))
  {
    PermissionWords(u.permission, "");
    LineText(key, u);
  }

  // ---------------------------------------------------------------- save, then load

  predicate CleanText(s: string) { ':' !in s && '\n' !in s && CTRL_Z !in s }

  /** The users the file format can hold: EXECUTE and FULL have no name in it. */
  predicate CleanUser(u: User) {
    && CleanText(u.username) && CleanText(u.passwordHash) && CleanText(u.homeDirectory)
    && u.permission != EXECUTE && u.permission != FULL
  }

  /** Each user is filed under their own name, which `add_user` and loading see to. */
  ghost predicate Keyed(users: Users) { forall k :: k in users ==> users[k].username == k }

  ghost predicate Clean(users: Users) { forall k :: k in users ==> CleanUser(users[k]) }

  lemma {:induction false} LinesOfJoined(ps: seq<string>, c: char)
    requires ps != [] && ps[|ps| - 1] != "" && Free(ps, c)
    ensures Lines(Join(ps, [c]), c) == ps
  {
    FreeTail(ps, c);
    if |ps| == 1 {
      assert Join(ps, [c]) == ps[0];
      OnlyLine(ps[0], c);
    } else {
      JoinHead(ps[0], ps[1..], [c]);
      LinesHead(ps[0], Join(ps[1..], [c]), c);
      LinesOfJoined(ps[1..], c);
    }
  }

  lemma ParseUserLine(u: User)
    requires CleanUser(u)
    ensures ParseUser(UserLine(u.username, u)) == Some(u)
  {
    var line, fields := UserLine(u.username, u), Fields(u.username, u);
    forall i | 0 <= i < 5 ensures ':' !in fields[i] {}
    LinesOfJoined(fields, ':');
  }

  lemma {:induction false} JoinKeepsFree(ps: seq<string>, x: char)
    requires Free(ps, x) && x != ':'
    ensures x !in Join(ps, ":")
  {
    if |ps| > 1 {
      assert [ps[0]] + ps[1..] == ps;
      JoinHead(ps[0], ps[1..], ":");
      JoinKeepsFree(ps[1..], x);
    }
  }

  lemma {:induction false} TerminatedKeepsFree(ps: seq<string>, x: char)
    requires Free(ps, x) && x != '\n'
    ensures x !in Terminated(ps, "\n")
  {
    if ps != [] {
      FreeTail(ps, x);
      TerminatedKeepsFree(ps[1..], x);
    }
  }

  /** Loading the lines of some users, each under their own name, adds exactly these. */
  lemma {:induction false} LoadSavedLines(start: Users, order: seq<string>, users: Users)
    requires Keyed(users) && Clean(users) && forall k :: k in order ==> k in users
    ensures var r := AddLines(start, UserLines(order, users));
            && (forall k :: k in r <==> k in start || k in order)
            && (forall k :: k in order ==> r[k] == users[k])
            && (forall k :: k in start && k !in order ==> r[k] == start[k])
    decreases |order|
  {
    if order != [] {
      var k := order[0];
      var lines := UserLines(order, users);
      ParseUserLine(users[k]);
      assert AddLine(start, lines[0]) == start[k := users[k]];
      assert lines[1..] == UserLines(order[1..], users);
      LoadSavedLines(start[k := users[k]], order[1..], users);
    }
  }

  lemma UserLinesAreFree(order: seq<string>, users: Users, x: char)
    requires Keyed(users) && Clean(users) && forall k :: k in order ==> k in users
    requires x == '\n' || x == CTRL_Z
    ensures Free(UserLines(order, users), x)
  {
    var lines := UserLines(order, users);
    forall i | 0 <= i < |lines| ensures x !in lines[i] {
      var u := users[order[i]];
      forall j | 0 <= j < 5 ensures x !in Fields(order[i], u)[j] {}
      JoinKeepsFree(Fields(order[i], u), x);
    }
  }

  lemma SavedText(order: seq<string>, users: Users)
    requires Keyed(users) && Clean(users) && forall k :: k in order ==> k in users
    ensures Lines(ReadText(DiskText(order, users)), '\n') == UserLines(order, users)
  {
    var text := FileText(order, users);
    UserLinesAreFree(order, users, '\n');
    UserLinesAreFree(order, users, CTRL_Z);
    LinesOfTerminated(UserLines(order, users), '\n');
    TerminatedKeepsFree(UserLines(order, users), CTRL_Z);
    assert WriteText(text) + "" == WriteText(text);
    WrittenTextReadsBack(text, "");
  }

  lemma LineGivesCleanUser(line: string)
    requires '\n' !in line && CTRL_Z !in line && ParseUser(line).Some?
    ensures CleanUser(ParseUser(line).value)
  {
    var parts := Lines(line, ':');
    LinesAreFree(line, ':');
    forall i | 0 <= i < 3 ensures CleanText(parts[i]) {
      if '\n' in parts[i] { LinesWithin(line, ':', i, '\n'); }
      if CTRL_Z in parts[i] { LinesWithin(line, ':', i, CTRL_Z); }
    }
  }

  lemma {:induction false} LoadingGivesCleanUsers(users: Users, lines: seq<string>)
    requires Clean(users) && Keyed(users) && Free(lines, '\n') && Free(lines, CTRL_Z)
    ensures Clean(AddLines(users, lines)) && Keyed(AddLines(users, lines))
    decreases |lines|
  {
    if lines != [] {
      FreeTail(lines, '\n');
      FreeTail(lines, CTRL_Z);
      if ParseUser(lines[0]).Some? { LineGivesCleanUser(lines[0]); }
      LoadingGivesCleanUsers(AddLine(users, lines[0]), lines[1..]);
    }
  }

  /** Whatever is on the disk, loading it gives users that the file format can hold. */
  lemma LoadedUsersAreClean(disk: string)
    ensures Clean(LoadText(disk)) && Keyed(LoadText(disk))
  {
    var text := ReadText(disk);
    var lines := Lines(text, '\n');
    LinesAreFree(text, '\n');
    NothingPastControlZ(disk);
    forall i | 0 <= i < |lines| ensures CTRL_Z !in lines[i] {
      if CTRL_Z in lines[i] { LinesWithin(text, '\n', i, CTRL_Z); }
    }
    LoadingGivesCleanUsers(map[], lines);
  }

  /** Whatever order the map is iterated in, saving and loading again restores the users
      exactly when every field can be held by the file format. */
  lemma SavedUsersReload(users: Users, order: seq<string>)
    requires Keyed(users) && OrderOf(order, users)
    ensures LoadText(DiskText(order, users)) == users <==> Clean(users)
  {
    LoadedUsersAreClean(DiskText(order, users));
    if Clean(users) {
      SavedText(order, users);
      LoadSavedLines(map[], order, users);
    }
  }

  function AddAll(users: Users, added: seq<User>): Users
    decreases added
  {
    if added == [] then users else AddAll(users[added[0].username := added[0]], added[1..])
  }

  /** A store that starts from its file and only ever adds clean users is restored by a
      restart after any number of `add_user` calls. */
  lemma {:induction false} RestartAfterAdding(users: Users, added: seq<User>, order: seq<string>)
    requires Keyed(users) && Clean(users) && forall u :: u in added ==> CleanUser(u)
    requires OrderOf(order, AddAll(users, added))
    ensures LoadText(DiskText(order, AddAll(users, added))) == AddAll(users, added)
    decreases |added|
  {
    if added == [] {
      SavedUsersReload(users, order);
    } else {
      RestartAfterAdding(users[added[0].username := added[0]], added[1..], order);
    }
  }
}
