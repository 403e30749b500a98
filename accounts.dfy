/**
 * auth.py: the user table (`Username`, `PasswordHash`, `Admin`,
 * `Compromised`), the message table (`User`, `Message`), the self-healing
 * bootstrap administrator, and the login / sign-up / password-change /
 * role-toggle / deletion flows with their breach check.
 *
 * Each CSV file is a field of `AuthStore` holding its logical state
 * (missing, empty, or a sequence of rows); every operation loads the table,
 * changes it and writes it back, which here is one assignment to the field.
 * A cell holds the text pandas would render for it (`str(cell)`), so a
 * boolean written by pandas reads back as "True" or "False".
 */
module Accounts {
  import opened Wrappers
  import opened Text
  import opened Bytes
  import opened Crypto
  import opened Pwned
  import opened Seqs

  datatype UserRow = UserRow(username: string, passwordHash: string, admin: string, compromised: string)

  /** csv/users.csv: absent, empty (no header), or a table with or without its `Admin` column. */
  datatype UsersFile = UsersMissing | UsersEmpty | Users(hasAdminColumn: bool, rows: seq<UserRow>)

  datatype MessageRow = MessageRow(user: string, message: string)

  /** csv/messages.csv. */
  datatype MessagesFile = MessagesMissing | MessagesEmpty | Messages(rows: seq<MessageRow>)

  /** The login and sign-up statuses "SUCCESS", "WARNING" and "FAIL". */
  datatype Status = Success | Warning | Fail

  const AdminName: string := "admin"
  const AdminPassword: string := "Admin@1234"
  const TrueCell: string := "True"
  const FalseCell: string := "False"
  const NotCompromised: string := "Non"

  function RowsOf(f: UsersFile): seq<UserRow>
  {
    if f.Users? then f.rows else []
  }

  function MessageRowsOf(f: MessagesFile): seq<MessageRow>
  {
    if f.Messages? then f.rows else []
  }

  predicate HasUser(rows: seq<UserRow>, name: string)
  {
    exists i :: 0 <= i < |rows| && rows[i].username == name
  }

  predicate UniqueNames(rows: seq<UserRow>)
  {
    forall i, j :: 0 <= i < j < |rows| ==> rows[i].username != rows[j].username
  }

  /** `df.index[df["Username"] == name][0]`: the first row with that name. */
  function FirstIndex(rows: seq<UserRow>, name: string): (i: nat)
    requires HasUser(rows, name)
    ensures i < |rows| && rows[i].username == name
    ensures forall j :: 0 <= j < i ==> rows[j].username != name
  {
    if rows[0].username == name then 0
    else
      assert HasUser(rows[1..], name) by {
        var k :| 0 <= k < |rows| && rows[k].username == name;
        assert rows[1..][k - 1] == rows[k];
      }
      1 + FirstIndex(rows[1..], name)
  }

  /** `hashlib.sha256(password.encode()).hexdigest()`. */
  function HashHex(h: Hashes, password: string): string
  {
    Sha256Hex(h, Utf8(password))
  }

  /** `str(value).lower() in ['true', '1', 'yes']`. */
  predicate IsTruthy(cell: string)
  {
    Lower(cell) in {"true", "1", "yes"}
  }

  /** How pandas writes a Python bool. */
  function BoolCell(b: bool): string
  {
    if b then TrueCell else FalseCell
  }

  // ----- init_files: the bootstrap administrator -----

  function AdminRow(h: Hashes): UserRow
  {
    UserRow(AdminName, HashHex(h, AdminPassword), TrueCell, NotCompromised)
  }

  /** Repair is due when the file is missing or empty, lacks "admin", or lacks the `Admin` column. */
  predicate RepairNeeded(f: UsersFile)
  {
    match f
    case UsersMissing => true
    case UsersEmpty => true
    case Users(hasAdminColumn, rows) => !HasUser(rows, AdminName) || !hasAdminColumn
  }

  /** `old_df["Admin"] = False`. */
  function WithAdminColumn(rows: seq<UserRow>): (r: seq<UserRow>)
    ensures |r| == |rows|
    ensures forall i :: 0 <= i < |r| ==> r[i] == rows[i].(admin := FalseCell)
  {
    if rows == [] then [] else [rows[0].(admin := FalseCell)] + WithAdminColumn(rows[1..])
  }

  /** `drop_duplicates(subset=["Username"], keep='last')`. */
  function KeepLast(rows: seq<UserRow>): (r: seq<UserRow>)
    ensures forall i :: 0 <= i < |r| ==> r[i] in rows
  {
    if rows == [] then []
    else if HasUser(rows[1..], rows[0].username) then KeepLast(rows[1..])
    else [rows[0]] + KeepLast(rows[1..])
  }

  /** The users file after `init_files()` (auth.py:20-50). */
  function Repair(h: Hashes, f: UsersFile): UsersFile
  {
    if !RepairNeeded(f) then f
    else match f
      case Users(hasAdminColumn, rows) =>
        var table := if hasAdminColumn then rows else WithAdminColumn(rows);
        Users(true, KeepLast(table + [AdminRow(h)]))
      case _ => Users(true, [AdminRow(h)])
  }

  /** The messages file after `init_files()`: created with its header if missing. */
  function InitMessages(f: MessagesFile): MessagesFile
  {
    if f.MessagesMissing? then Messages([]) else f
  }

  /** A name occurs in a non-empty table iff it is the first row's or occurs in the rest. */
  lemma HasUserCons(rows: seq<UserRow>, name: string)
    requires rows != []
    ensures HasUser(rows, name) <==> rows[0].username == name || HasUser(rows[1..], name)
  {
    if HasUser(rows[1..], name) {
      var k :| 0 <= k < |rows[1..]| && rows[1..][k].username == name;
      assert rows[k + 1].username == name;
    }
    if HasUser(rows, name) && rows[0].username != name {
      var k :| 0 <= k < |rows| && rows[k].username == name;
      assert rows[1..][k - 1].username == name;
    }
  }

  lemma {:induction false} KeepLastSameUsers(rows: seq<UserRow>, name: string)
    ensures HasUser(KeepLast(rows), name) <==> HasUser(rows, name)
  {
    if rows != [] {
      KeepLastSameUsers(rows[1..], name);
      HasUserCons(rows, name);
      var tail := KeepLast(rows[1..]);
      if HasUser(rows[1..], rows[0].username) {
        KeepLastSameUsers(rows[1..], rows[0].username);
      } else {
        assert KeepLast(rows) == [rows[0]] + tail;
        HasUserCons([rows[0]] + tail, name);
        assert ([rows[0]] + tail)[1..] == tail;
      }
    }
  }

  lemma UniqueCons(x: UserRow, tail: seq<UserRow>)
    requires UniqueNames(tail) && !HasUser(tail, x.username)
    ensures UniqueNames([x] + tail)
  {
    var r := [x] + tail;
    forall i, j | 0 <= i < j < |r|
      ensures r[i].username != r[j].username
    {
      assert r[j] == tail[j - 1];
      if i > 0 {
        assert r[i] == tail[i - 1];
      }
    }
  }

  /** After dropping duplicates no username occurs twice. */
  lemma {:induction false} KeepLastUnique(rows: seq<UserRow>)
    ensures UniqueNames(KeepLast(rows))
  {
    if rows != [] {
      KeepLastUnique(rows[1..]);
      if !HasUser(rows[1..], rows[0].username) {
        KeepLastSameUsers(rows[1..], rows[0].username);
        UniqueCons(rows[0], KeepLast(rows[1..]));
      }
    }
  }

  /** Keeping the last occurrence, a row appended at the end survives and is its name's only row. */
  lemma {:induction false} KeepLastKeepsFinal(rows: seq<UserRow>, x: UserRow)
    ensures x in KeepLast(rows + [x])
    ensures forall i :: 0 <= i < |KeepLast(rows + [x])| && KeepLast(rows + [x])[i].username == x.username
              ==> KeepLast(rows + [x])[i] == x
  {
    var s := rows + [x];
    if rows == [] {
      assert s == [x];
      assert !HasUser(s[1..], x.username);
    } else {
      assert s[1..] == rows[1..] + [x];
      KeepLastKeepsFinal(rows[1..], x);
      if !HasUser(s[1..], s[0].username) {
        assert s[0].username != x.username by {
          assert s[1..][|s[1..]| - 1] == x;
        }
        var r := KeepLast(s);
        forall i | 0 <= i < |r| && r[i].username == x.username
          ensures r[i] == x
        {
          if i > 0 {
            assert r[i] == KeepLast(s[1..])[i - 1];
          }
        }
      }
    }
  }

  /** Row `j` is the last row with its username. */
  predicate LastOfName(rows: seq<UserRow>, j: int)
  {
    0 <= j < |rows| && !HasUser(rows[j + 1..], rows[j].username)
  }

  lemma SubsequenceSkip(x: UserRow, a: seq<UserRow>, b: seq<UserRow>)
    requires IsSubsequence(a, b)
    ensures IsSubsequence(a, [x] + b)
  {
    assert ([x] + b)[1..] == b;
  }

  /**
   * `keep='last'`: the rows kept are exactly the rows that are the last with
   * their username, in table order.
   */
  lemma {:induction false} KeepLastKeepsLastRows(rows: seq<UserRow>)
    ensures IsSubsequence(KeepLast(rows), rows)
    ensures forall x :: x in KeepLast(rows) <==> exists j :: LastOfName(rows, j) && rows[j] == x
  {
    if rows != [] {
      var tail := rows[1..];
      KeepLastKeepsLastRows(tail);
      assert [rows[0]] + tail == rows;
      forall j | 1 <= j < |rows|
        ensures LastOfName(rows, j) <==> LastOfName(tail, j - 1)
      {
        assert rows[j + 1..] == tail[j..];
      }
      forall x
        ensures x in KeepLast(rows) <==> exists j :: LastOfName(rows, j) && rows[j] == x
      {
        if x in KeepLast(tail) {
          var k :| LastOfName(tail, k) && tail[k] == x;
          assert LastOfName(rows, k + 1);
        }
        if j :| LastOfName(rows, j) && rows[j] == x && j > 0 {
          assert LastOfName(tail, j - 1);
        }
      }
      if HasUser(tail, rows[0].username) {
        SubsequenceSkip(rows[0], KeepLast(tail), tail);
      } else {
        SubsequenceCons(rows[0], KeepLast(tail), tail);
      }
    }
  }

  /** The rows from index `j` on that are the last with their username, in table order. */
  function LastRowsFrom(rows: seq<UserRow>, j: nat): seq<UserRow>
    requires j <= |rows|
    decreases |rows| - j
  {
    if j == |rows| then [] else (if LastOfName(rows, j) then [rows[j]] else []) + LastRowsFrom(rows, j + 1)
  }

  lemma {:induction false} LastRowsFromTail(rows: seq<UserRow>, j: nat)
    requires 1 <= j <= |rows|
    ensures LastRowsFrom(rows, j) == LastRowsFrom(rows[1..], j - 1)
    decreases |rows| - j
  {
    if j < |rows| {
      var tail := rows[1..];
      LastRowsFromTail(rows, j + 1);
      assert tail[j - 1] == rows[j];
      assert rows[j + 1..] == tail[j..];
      assert LastOfName(rows, j) == LastOfName(tail, j - 1);
    }
  }

  /**
   * `keep='last'` position by position: the result is the sequence of rows
   * that are the last with their username, taken in table order.
   */
  lemma {:induction false} KeepLastIsLastRows(rows: seq<UserRow>)
    ensures KeepLast(rows) == LastRowsFrom(rows, 0)
  {
    if rows != [] {
      KeepLastIsLastRows(rows[1..]);
      LastRowsFromTail(rows, 1);
    }
  }

  /** Appending a row whose username is new keeps usernames unique. */
  lemma AppendKeepsNamesUnique(rows: seq<UserRow>, x: UserRow)
    requires UniqueNames(rows) && !HasUser(rows, x.username)
    ensures UniqueNames(rows + [x])
  {
    var r := rows + [x];
    forall i, j | 0 <= i < j < |r|
      ensures r[i].username != r[j].username
    {
      assert r[i] == rows[i];
      if j < |rows| {
        assert r[j] == rows[j];
      }
    }
  }

  /** After `init_files()` the users file is a table with an `Admin` column and an "admin" row. */
  lemma RepairEstablishesAdmin(h: Hashes, f: UsersFile)
    ensures Repair(h, f).Users? && Repair(h, f).hasAdminColumn
    ensures HasUser(Repair(h, f).rows, AdminName)
  {
    if RepairNeeded(f) && f.Users? {
      var table := if f.hasAdminColumn then f.rows else WithAdminColumn(f.rows);
      KeepLastKeepsFinal(table, AdminRow(h));
      var r := KeepLast(table + [AdminRow(h)]);
      var k :| 0 <= k < |r| && r[k] == AdminRow(h);
    } else if RepairNeeded(f) {
      assert Repair(h, f).rows[0] == AdminRow(h);
    }
  }

  /** The bootstrap row is in `rows`, and every "admin" row is the bootstrap row. */
  predicate OnlyBootstrapAdmin(h: Hashes, rows: seq<UserRow>)
  {
    && AdminRow(h) in rows
    && forall i :: 0 <= i < |rows| && rows[i].username == AdminName ==> rows[i] == AdminRow(h)
  }

  lemma AdminRowIsAdmin(h: Hashes)
    ensures IsTruthy(AdminRow(h).admin)
  {
    assert Lower(TrueCell) == "true";
  }

  /**
   * When repair runs, the table ends up with exactly one "admin" row, which
   * is the bootstrap administrator with `Admin` True, and no username twice.
   */
  lemma RepairedAdminIsUnique(h: Hashes, f: UsersFile)
    requires RepairNeeded(f)
    ensures UniqueNames(Repair(h, f).rows)
    ensures OnlyBootstrapAdmin(h, Repair(h, f).rows)
    ensures forall i :: 0 <= i < |Repair(h, f).rows| && Repair(h, f).rows[i].username == AdminName
              ==> IsTruthy(Repair(h, f).rows[i].admin)
  {
    var rows := Repair(h, f).rows;
    if f.Users? {
      var table := if f.hasAdminColumn then f.rows else WithAdminColumn(f.rows);
      var all := table + [AdminRow(h)];
      KeepLastKeepsFinal(table, AdminRow(h));
      KeepLastUnique(all);
      assert rows == KeepLast(all);
    } else {
      assert rows == [AdminRow(h)];
    }
    AdminRowIsAdmin(h);
  }

  /** Repair keeps every username the table already had. */
  lemma RepairKeepsUsers(h: Hashes, f: UsersFile, name: string)
    requires f.Users? && HasUser(f.rows, name)
    ensures HasUser(Repair(h, f).rows, name)
  {
    if RepairNeeded(f) {
      var table := if f.hasAdminColumn then f.rows else WithAdminColumn(f.rows);
      var k :| 0 <= k < |f.rows| && f.rows[k].username == name;
      assert table[k].username == name;
      assert (table + [AdminRow(h)])[k].username == name;
      KeepLastSameUsers(table + [AdminRow(h)], name);
    }
  }

  lemma LastOfNameAppend(rows: seq<UserRow>, x: UserRow, i: nat)
    requires LastOfName(rows, i) && rows[i].username != x.username
    ensures LastOfName(rows + [x], i)
  {
    var all := rows + [x];
    var later, rest := all[i + 1..], rows[i + 1..];
    assert later == rest + [x];
    assert forall k :: 0 <= k < |rest| ==> later[k] == rest[k];
  }

  lemma LastOfNameWithAdminColumn(rows: seq<UserRow>, i: nat)
    requires LastOfName(rows, i)
    ensures LastOfName(WithAdminColumn(rows), i)
  {
    var table := WithAdminColumn(rows);
    var later, rest := table[i + 1..], rows[i + 1..];
    assert forall k :: 0 <= k < |later| ==> later[k].username == rest[k].username;
  }

  /**
   * Repair keeps each user's last row other than "admin": as it was, or with
   * `Admin` "False" when the column had to be added.
   */
  lemma RepairKeepsLastRows(h: Hashes, f: UsersFile, i: nat)
    requires f.Users? && LastOfName(f.rows, i) && f.rows[i].username != AdminName
    ensures (if f.hasAdminColumn then f.rows[i] else f.rows[i].(admin := FalseCell)) in Repair(h, f).rows
  {
    if RepairNeeded(f) {
      var table := if f.hasAdminColumn then f.rows else WithAdminColumn(f.rows);
      if !f.hasAdminColumn {
        LastOfNameWithAdminColumn(f.rows, i);
      }
      LastOfNameAppend(table, AdminRow(h), i);
      KeepLastKeepsLastRows(table + [AdminRow(h)]);
      assert (table + [AdminRow(h)])[i] == table[i];
    }
  }

  /** Loading twice in a row repairs nothing the second time. */
  lemma RepairIdempotent(h: Hashes, f: UsersFile)
    ensures Repair(h, Repair(h, f)) == Repair(h, f)
  {
    RepairEstablishesAdmin(h, f);
  }

  // ----- check_password_leak_api: the response scan -----

  /**
   * The generator loop of auth.py:111-114: a line that does not unpack into
   * two parts raises ValueError (caught: not leaked), a line whose part before
   * ':' is the suffix means leaked.
   */
  function LeakScan(lines: seq<string>, suffix: string): bool
  {
    if lines == [] then false
    else
      var parts := Split(lines[0], ':');
      if |parts| != 2 then false
      else if parts[0] == suffix then true
      else LeakScan(lines[1..], suffix)
  }

  /** Line `i` is `suffix:count` and every earlier line unpacks into two parts. */
  predicate HitAt(lines: seq<string>, i: int, suffix: string)
  {
    && 0 <= i < |lines|
    && |Split(lines[i], ':')| == 2 && Split(lines[i], ':')[0] == suffix
    && forall j :: 0 <= j < i ==> |Split(lines[j], ':')| == 2
  }

  /** The scan reports a leak exactly when some line matches before any malformed line. */
  lemma {:induction false} LeakScanFindsHit(lines: seq<string>, suffix: string)
    ensures LeakScan(lines, suffix) <==> exists i :: HitAt(lines, i, suffix)
  {
    if lines != [] {
      var parts := Split(lines[0], ':');
      if |parts| == 2 && parts[0] != suffix {
        LeakScanFindsHit(lines[1..], suffix);
        if LeakScan(lines, suffix) {
          var i :| HitAt(lines[1..], i, suffix);
          assert HitAt(lines, i + 1, suffix);
        }
        if exists i :: HitAt(lines, i, suffix) {
          var i :| HitAt(lines, i, suffix);
          assert i != 0;
          assert HitAt(lines[1..], i - 1, suffix);
        }
      } else if |parts| == 2 {
        assert HitAt(lines, 0, suffix);
      } else {
        assert forall i :: HitAt(lines, i, suffix) ==> |Split(lines[0], ':')| == 2;
      }
    }
  }

  /** `check_password_leak_api` for one reply: only a 200 reply can report a leak. */
  predicate LeakInReply(reply: HttpReply, suffix: string)
  {
    reply.Reply? && reply.status == 200 && LeakScan(SplitLines(reply.text), suffix)
  }

  /** The URL the leak check requests: the range endpoint and the 5-character prefix. */
  function LeakUrl(h: Hashes, password: string): string
  {
    RangeUrl + Prefix(Fingerprint(h, password))
  }

  // ----- authenticate_user -----

  /** The first row with that username stores (after `strip()`) this hash. */
  predicate PasswordMatches(rows: seq<UserRow>, username: string, hashed: string)
  {
    HasUser(rows, username) && Strip(rows[FirstIndex(rows, username)].passwordHash) == hashed
  }

  /**
   * The decision of `authenticate_user` (auth.py:83-99) on the loaded rows,
   * the SHA-256 hex of the password and the leak check's answer.
   */
  function LoginOutcome(rows: seq<UserRow>, username: string, hashed: string, leaked: bool, token: string)
    : (r: (Status, bool, Option<string>))
    ensures !PasswordMatches(rows, username, hashed) ==> r == (Fail, false, None)
    ensures PasswordMatches(rows, username, hashed) ==>
      && r.0 == (if leaked then Warning else Success)
      && r.1 == IsTruthy(rows[FirstIndex(rows, username)].admin)
      && r.2 == Some(token)
  {
    if HasUser(rows, username) then
      var row := rows[FirstIndex(rows, username)];
      if Strip(row.passwordHash) == hashed then
        (if leaked then Warning else Success, IsTruthy(row.admin), Some(token))
      else (Fail, false, None)
    else (Fail, false, None)
  }

  /**
   * An unknown username and a wrong password give the same answer, and the
   * leak check's answer matters only once the password matched.
   */
  lemma LoginFailureIsUninformative(rows: seq<UserRow>, username: string, hashed: string, token: string)
    requires !PasswordMatches(rows, username, hashed)
    ensures LoginOutcome(rows, username, hashed, true, token) == LoginOutcome(rows, username, hashed, false, token)
    ensures !HasUser(rows, username) ==> LoginOutcome(rows, username, hashed, true, token) == (Fail, false, None)
  {
  }

  /** A hex digest has no surrounding whitespace, so `strip()` leaves it alone. */
  lemma HashHexStrips(h: Hashes, password: string)
    ensures Strip(HashHex(h, password)) == HashHex(h, password)
  {
    var d := HashHex(h, password);
    if d != [] {
      assert IsLowerHexDigit(d[0]) && IsLowerHexDigit(d[|d| - 1]);
      StripUnchanged(d);
    }
  }

  /** The row `create_user` appends. */
  function NewUserRow(h: Hashes, username: string, password: string): UserRow
  {
    UserRow(username, HashHex(h, password), FalseCell, NotCompromised)
  }

  /**
   * After `create_user(u, p)` appends its row, logging in as `u` with `p`
   * succeeds (SUCCESS or WARNING), as a non-admin, and a password whose
   * digest differs fails.
   */
  lemma CreatedUserCanLogIn(h: Hashes, rows: seq<UserRow>, username: string, password: string,
                            other: string, leaked: bool, token: string)
    requires !HasUser(rows, username)
    requires HashHex(h, other) != HashHex(h, password)
    ensures var rows' := rows + [NewUserRow(h, username, password)];
      && LoginOutcome(rows', username, HashHex(h, password), leaked, token).0 != Fail
      && !LoginOutcome(rows', username, HashHex(h, password), leaked, token).1
      && LoginOutcome(rows', username, HashHex(h, other), leaked, token) == (Fail, false, None)
  {
    var rows' := rows + [NewUserRow(h, username, password)];
    assert rows'[|rows|].username == username;
    assert FirstIndex(rows', username) == |rows|;
    HashHexStrips(h, password);
    assert Lower(FalseCell) == "false";
  }

  // ----- change_password, toggle_admin_status, delete_user -----

  /** The row after `change_password`: new hash, `Compromised` reset to "Non". */
  function WithNewPassword(row: UserRow, hashed: string): UserRow
  {
    row.(passwordHash := hashed, compromised := NotCompromised)
  }

  /** The row after `toggle_admin_status`: the parsed flag, negated, written as a bool. */
  function Toggled(row: UserRow): (r: UserRow)
    ensures IsTruthy(r.admin) == !IsTruthy(row.admin)
    ensures r.username == row.username && r.passwordHash == row.passwordHash && r.compromised == row.compromised
  {
    assert Lower(TrueCell) == "true" && Lower(FalseCell) == "false";
    row.(admin := BoolCell(!IsTruthy(row.admin)))
  }

  /** Two toggles give back the original admin flag (and cell, once it is a bool). */
  lemma ToggleTwice(row: UserRow)
    ensures IsTruthy(Toggled(Toggled(row)).admin) == IsTruthy(row.admin)
    ensures Toggled(Toggled(Toggled(row))) == Toggled(row)
  {
  }

  /** `df[df["Username"] != name]`. */
  function WithoutUser(rows: seq<UserRow>, name: string): seq<UserRow>
  {
    Filter(rows, (r: UserRow) => r.username != name)
  }

  /**
   * Deletion removes every row with that name and keeps every other row, in
   * its original order.
   */
  lemma WithoutUserSpec(rows: seq<UserRow>, name: string)
    ensures !HasUser(WithoutUser(rows, name), name)
    ensures forall i :: 0 <= i < |rows| && rows[i].username != name ==> rows[i] in WithoutUser(rows, name)
    ensures IsSubsequence(WithoutUser(rows, name), rows)
    ensures forall x :: multiset(WithoutUser(rows, name))[x] == if x.username != name then multiset(rows)[x] else 0
    ensures !HasUser(rows, name) ==> WithoutUser(rows, name) == rows
  {
    var p := (r: UserRow) => r.username != name;
    FilterIsSubsequence(rows, p);
    FilterCounts(rows, p);
    if !HasUser(rows, name) {
      FilterAll(rows, p);
    }
  }

  // ----- messages -----

  /** `df[df["User"] == username]["Message"].tolist()`. */
  function MessagesFor(rows: seq<MessageRow>, user: string): seq<string>
  {
    if rows == [] then []
    else (if rows[0].user == user then [rows[0].message] else []) + MessagesFor(rows[1..], user)
  }

  /** `df[df["User"] != username]`. */
  function OtherMessages(rows: seq<MessageRow>, user: string): seq<MessageRow>
  {
    Filter(rows, (r: MessageRow) => r.user != user)
  }

  /** A message sent to `user` is delivered last among that user's messages; others see no change. */
  lemma {:induction false} SentMessageIsDelivered(rows: seq<MessageRow>, target: string, message: string, user: string)
    ensures MessagesFor(rows + [MessageRow(target, message)], user)
         == MessagesFor(rows, user) + (if user == target then [message] else [])
  {
    if rows == [] {
      assert rows + [MessageRow(target, message)] == [MessageRow(target, message)];
    } else {
      assert (rows + [MessageRow(target, message)])[1..] == rows[1..] + [MessageRow(target, message)];
      SentMessageIsDelivered(rows[1..], target, message, user);
    }
  }

  /**
   * Messages are read once: after removal the user has none left, and every
   * other user's row is kept, as often as it occurred and in its order.
   */
  lemma ReadMessagesAreGone(rows: seq<MessageRow>, user: string)
    ensures MessagesFor(OtherMessages(rows, user), user) == []
    ensures IsSubsequence(OtherMessages(rows, user), rows)
    ensures forall x :: multiset(OtherMessages(rows, user))[x] == if x.user != user then multiset(rows)[x] else 0
  {
    NoMessagesLeft(OtherMessages(rows, user), user);
    FilterIsSubsequence(rows, (r: MessageRow) => r.user != user);
    FilterCounts(rows, (r: MessageRow) => r.user != user);
  }

  lemma {:induction false} NoMessagesLeft(rows: seq<MessageRow>, user: string)
    requires forall i :: 0 <= i < |rows| ==> rows[i].user != user
    ensures MessagesFor(rows, user) == []
  {
    if rows != [] {
      NoMessagesLeft(rows[1..], user);
    }
  }

  /**
   * The account and message files, the breach-check endpoint, the hash
   * functions and the `JWT_SECRET` value `authenticate_user` hands out.
   */
  class AuthStore {
    const hashes: Hashes
    const api: RangeApi
    const jwtSecret: string
    var users: UsersFile
    var messages: MessagesFile

    constructor (hashes: Hashes, api: RangeApi, jwtSecret: string, users: UsersFile, messages: MessagesFile)
      ensures this.hashes == hashes && this.api == api && this.jwtSecret == jwtSecret
      ensures this.users == users && this.messages == messages
    {
      this.hashes := hashes;
      this.api := api;
      this.jwtSecret := jwtSecret;
      this.users := users;
      this.messages := messages;
    }

    /** What the leak check answers for this password. */
    predicate IsLeaked(password: string)
    {
      LeakInReply(api.reply(LeakUrl(hashes, password)), Suffix(Fingerprint(hashes, password)))
    }

    /** `init_files()`: repairs the users file and creates the messages file if missing. */
    method InitFiles()
      modifies this
      ensures users == Repair(hashes, old(users))
      ensures messages == InitMessages(old(messages))
    {
      if RepairNeeded(users) {
        match users
        case Users(hasAdminColumn, rows) =>
          var table := rows;
          if !hasAdminColumn {
            table := WithAdminColumn(rows);
          }
          users := Users(true, KeepLast(table + [AdminRow(hashes)]));
        case _ =>
          users := Users(true, [AdminRow(hashes)]);
      }
      if messages.MessagesMissing? {
        messages := Messages([]);
      }
    }

    /** `load_users()`: the rows after `init_files()`, always including "admin". */
    method LoadUsers() returns (rows: seq<UserRow>)
      modifies this
      ensures users == Repair(hashes, old(users)) && messages == InitMessages(old(messages))
      ensures users == Users(true, rows)
      ensures HasUser(rows, AdminName)
    {
      InitFiles();
      RepairEstablishesAdmin(hashes, old(users));
      rows := users.rows;
    }

    /** `check_password_leak_api(password)`: one request carrying only the prefix. */
    method CheckPasswordLeakApi(password: string) returns (leaked: bool)
      modifies api
      ensures api.requests == old(api.requests) + [LeakUrl(hashes, password)]
      ensures leaked == IsLeaked(password)
    {
      var digest := Fingerprint(hashes, password);
      var prefix, suffix := Prefix(digest), Suffix(digest);
      var reply := api.Get(RangeUrl + prefix);
      leaked := LeakInReply(reply, suffix);
    }

    /**
     * `create_user(username, password)`: an existing name fails before the
     * leak check; a leaked password fails; otherwise exactly one row is
     * appended.
     */
    method CreateUser(username: string, password: string) returns (status: Status, message: string)
      modifies this, api
      ensures messages == InitMessages(old(messages))
      ensures var rows := RowsOf(Repair(hashes, old(users)));
        if HasUser(rows, username) then
          && status == Fail && message == "Utilisateur existe déjà"
          && users == Users(true, rows) && api.requests == old(api.requests)
        else
          && api.requests == old(api.requests) + [LeakUrl(hashes, password)]
          && if IsLeaked(password) then
               && status == Fail && message == "Mot de passe COMPROMIS ! Choisissez-en un autre."
               && users == Users(true, rows)
             else
               && status == Success && message == "Compte créé avec succès"
               && users == Users(true, rows + [NewUserRow(hashes, username, password)])
      ensures status == Success && UniqueNames(RowsOf(Repair(hashes, old(users)))) ==> UniqueNames(users.rows)
    {
      var rows := LoadUsers();
      if HasUser(rows, username) {
        return Fail, "Utilisateur existe déjà";
      }
      var leaked := CheckPasswordLeakApi(password);
      if leaked {
        return Fail, "Mot de passe COMPROMIS ! Choisissez-en un autre.";
      }
      users := Users(true, rows + [NewUserRow(hashes, username, password)]);
      if UniqueNames(rows) {
        AppendKeepsNamesUnique(rows, NewUserRow(hashes, username, password));
      }
      return Success, "Compte créé avec succès";
    }

    /**
     * `authenticate_user(username, password)`: the table is only repaired,
     * and the leak check is requested only after the hash matched.
     */
    method AuthenticateUser(username: string, password: string) returns (status: Status, isAdmin: bool, token: Option<string>)
      modifies this, api
      ensures var rows := RowsOf(Repair(hashes, old(users)));
        && users == Users(true, rows) && messages == InitMessages(old(messages))
        && (status, isAdmin, token) == LoginOutcome(rows, username, HashHex(hashes, password), IsLeaked(password), jwtSecret)
        && api.requests == old(api.requests)
             + (if PasswordMatches(rows, username, HashHex(hashes, password)) then [LeakUrl(hashes, password)] else [])
    {
      var rows := LoadUsers();
      var hashed := HashHex(hashes, password);
      if HasUser(rows, username) {
        var row := rows[FirstIndex(rows, username)];
        if Strip(row.passwordHash) == hashed {
          isAdmin := IsTruthy(row.admin);
          var leaked := CheckPasswordLeakApi(password);
          if leaked {
            return Warning, isAdmin, Some(jwtSecret);
          }
          return Success, isAdmin, Some(jwtSecret);
        }
      }
      return Fail, false, None;
    }

    /**
     * `change_password(username, new_password)`: a leaked password fails
     * before any file is read; otherwise only the first matching row's hash
     * and `Compromised` cell change.
     */
    method ChangePassword(username: string, newPassword: string) returns (status: Status, message: string)
      modifies this, api
      ensures api.requests == old(api.requests) + [LeakUrl(hashes, newPassword)]
      ensures IsLeaked(newPassword) ==>
        && status == Fail && message == "Mot de passe COMPROMIS ! Choisissez plus complexe."
        && users == old(users) && messages == old(messages)
      ensures !IsLeaked(newPassword) ==>
        var rows := RowsOf(Repair(hashes, old(users)));
        && messages == InitMessages(old(messages))
        && if HasUser(rows, username) then
             var i := FirstIndex(rows, username);
             && status == Success && message == "Votre mot de passe a été mis à jour."
             && users == Users(true, rows[i := WithNewPassword(rows[i], HashHex(hashes, newPassword))])
           else
             && status == Fail && message == "Utilisateur introuvable"
             && users == Users(true, rows)
    {
      var leaked := CheckPasswordLeakApi(newPassword);
      if leaked {
        return Fail, "Mot de passe COMPROMIS ! Choisissez plus complexe.";
      }
      var rows := LoadUsers();
      if HasUser(rows, username) {
        var i := FirstIndex(rows, username);
        users := Users(true, rows[i := WithNewPassword(rows[i], HashHex(hashes, newPassword))]);
        return Success, "Votre mot de passe a été mis à jour.";
      }
      return Fail, "Utilisateur introuvable";
    }

    /**
     * `toggle_admin_status(username)`: "admin" is refused without touching
     * any file; otherwise the first matching row's flag is negated.
     */
    method ToggleAdminStatus(username: string) returns (ok: bool, message: string)
      modifies this
      ensures username == AdminName ==>
        && !ok && message == "Impossible de modifier le Super Admin"
        && users == old(users) && messages == old(messages)
      ensures username != AdminName ==>
        var rows := RowsOf(Repair(hashes, old(users)));
        && messages == InitMessages(old(messages))
        && if HasUser(rows, username) then
             var i := FirstIndex(rows, username);
             && ok && users == Users(true, rows[i := Toggled(rows[i])])
             && message == (if IsTruthy(Toggled(rows[i]).admin) then "Promu Admin" else "Rétrogradé User")
           else
             && !ok && message == "User introuvable"
             && users == Users(true, rows)
    {
      if username == AdminName {
        return false, "Impossible de modifier le Super Admin";
      }
      var rows := LoadUsers();
      if HasUser(rows, username) {
        var i := FirstIndex(rows, username);
        var newStatus := !IsTruthy(rows[i].admin);
        users := Users(true, rows[i := Toggled(rows[i])]);
        message := if newStatus then "Promu Admin" else "Rétrogradé User";
        return true, message;
      }
      return false, "User introuvable";
    }

    /**
     * `delete_user(username)`: "admin" is refused without touching any file;
     * an existing user loses every row with that name.
     */
    method DeleteUser(username: string) returns (ok: bool)
      modifies this
      ensures username == AdminName ==> !ok && users == old(users) && messages == old(messages)
      ensures username != AdminName ==>
        var rows := RowsOf(Repair(hashes, old(users)));
        && messages == InitMessages(old(messages))
        && ok == HasUser(rows, username)
        && users == Users(true, if ok then WithoutUser(rows, username) else rows)
    {
      if username == AdminName {
        return false;
      }
      var rows := LoadUsers();
      if HasUser(rows, username) {
        users := Users(true, WithoutUser(rows, username));
        return true;
      }
      return false;
    }

    /** `send_message(target_user, message)`: one row appended to the message table. */
    method SendMessage(target: string, message: string)
      modifies this
      ensures users == old(users)
      ensures messages == Messages(MessageRowsOf(old(messages)) + [MessageRow(target, message)])
    {
      messages := Messages(MessageRowsOf(messages) + [MessageRow(target, message)]);
    }

    /**
     * `get_user_messages(username)`: the user's messages in file order,
     * removed from the table; nothing is rewritten when there are none.
     */
    method GetUserMessages(username: string) returns (msgs: seq<string>)
      modifies this
      ensures users == old(users)
      ensures msgs == MessagesFor(MessageRowsOf(old(messages)), username)
      ensures messages == if msgs == [] then old(messages)
                          else Messages(OtherMessages(MessageRowsOf(old(messages)), username))
    {
      if !messages.Messages? || messages.rows == [] {
        return [];
      }
      msgs := MessagesFor(messages.rows, username);
      if msgs != [] {
        messages := Messages(OtherMessages(messages.rows, username));
      }
    }
  }
}
