/**
 * UserRepository as an in-memory table: the rows in insertion order, the next
 * identity value, and the database's integrity constraints as a predicate on rows.
 */
module UserRepository {
  import opened Wrappers
  import opened Domain

  /** A derived query's condition: one column equal to a value. */
  datatype Criterion = UidIs(uid: nat) | UsernameIs(username: string) | NicknameIs(nickname: string) | EmailIs(email: string)

  predicate Matches(row: UserRecord, c: Criterion) {
    match c
    case UidIs(uid) => row.uid == uid
    case UsernameIs(username) => row.username == Some(username)
    case NicknameIs(nickname) => row.nickname == Some(nickname)
    case EmailIs(email) => row.email == Some(email)
  }

  /** The position of the first row meeting the criterion. */
  function IndexWhere(rows: seq<UserRecord>, c: Criterion): (r: Option<nat>)
    ensures r.Some? ==> r.value < |rows| && Matches(rows[r.value], c)
    ensures r.Some? ==> forall j :: 0 <= j < r.value ==> !Matches(rows[j], c)
    ensures r.None? ==> forall j :: 0 <= j < |rows| ==> !Matches(rows[j], c)
  {
    if |rows| == 0 then None
    else if Matches(rows[0], c) then Some(0)
    else
      match IndexWhere(rows[1..], c)
      case None => None
      case Some(k) => Some(k + 1)
  }

  /** The rows with `row` in place of the row that has its uid, or with `row`
      appended when no row has it. */
  function Upsert(rows: seq<UserRecord>, row: UserRecord): (r: seq<UserRecord>)
    ensures IndexWhere(rows, UidIs(row.uid)).Some? ==>
      r == rows[IndexWhere(rows, UidIs(row.uid)).value := row]
    ensures IndexWhere(rows, UidIs(row.uid)).None? ==> r == rows + [row]
  {
    match IndexWhere(rows, UidIs(row.uid))
    case Some(i) => rows[i := row]
    case None => rows + [row]
  }

  /** No two rows share a uid. */
  ghost predicate DistinctUids(rows: seq<UserRecord>) {
    forall i, j :: 0 <= i < j < |rows| ==> rows[i].uid != rows[j].uid
  }

  /** In a table with distinct uids, the row with a stored row's uid is that row. */
  lemma UidLocatesRow(rows: seq<UserRecord>, i: nat)
    requires DistinctUids(rows) && i < |rows|
    ensures IndexWhere(rows, UidIs(rows[i].uid)) == Some(i)
  {
    assert Matches(rows[i], UidIs(rows[i].uid));
  }

  /** Replacing a row by one that meets the criterion exactly when the old row
      did leaves the first match where it was. */
  lemma {:induction false} ReplacingKeepsIndex(rows: seq<UserRecord>, i: nat, row: UserRecord, c: Criterion)
    requires i < |rows|
    requires Matches(row, c) == Matches(rows[i], c)
    ensures IndexWhere(rows[i := row], c) == IndexWhere(rows, c)
  {
    if i > 0 {
      ReplacingKeepsIndex(rows[1..], i - 1, row, c);
      assert rows[i := row][1..] == rows[1..][i - 1 := row];
    }
  }

  class UserRepository {
    var rows: seq<UserRecord>
    var nextUid: nat
    /** The database's integrity constraints; a row they refuse raises
        DataIntegrityViolationException. */
    const admits: UserRecord -> bool

    ghost predicate Valid()
      reads this
    {
      && DistinctUids(rows)
      && forall i :: 0 <= i < |rows| ==> rows[i].uid < nextUid
    }

    constructor (admits: UserRecord -> bool)
      ensures Valid() && rows == [] && this.admits == admits
    {
      rows := [];
      nextUid := 1;
      this.admits := admits;
    }

    /** findByUsername; null when no row has that username. */
    function FindByUsername(username: string): (r: Option<UserRecord>)
      reads this
      ensures r.Some? <==> exists i :: 0 <= i < |rows| && rows[i].username == Some(username)
      ensures r.Some? ==> r.value in rows && r.value.username == Some(username)
    {
      match IndexWhere(rows, UsernameIs(username))
      case None => None
      case Some(i) => Some(rows[i])
    }

    /** findByNickname. */
    function FindByNickname(nickname: string): (r: Option<UserRecord>)
      reads this
      ensures r.Some? <==> exists i :: 0 <= i < |rows| && rows[i].nickname == Some(nickname)
      ensures r.Some? ==> r.value in rows && r.value.nickname == Some(nickname)
    {
      match IndexWhere(rows, NicknameIs(nickname))
      case None => None
      case Some(i) => Some(rows[i])
    }

    /** findByEmail. */
    function FindByEmail(email: string): (r: Option<UserRecord>)
      reads this
      ensures r.Some? <==> exists i :: 0 <= i < |rows| && rows[i].email == Some(email)
      ensures r.Some? ==> r.value in rows && r.value.email == Some(email)
    {
      match IndexWhere(rows, EmailIs(email))
      case None => None
      case Some(i) => Some(rows[i])
    }

    /** The row `save` writes for an entity: its columns, under the entity's uid
        when a row has that uid, under the next identity value otherwise. */
    function RowFor(u: User): (r: UserRecord)
      reads this, u
      ensures r.username == u.username && r.pw == u.pw && r.email == u.email && r.nickname == u.nickname
      ensures r.role == u.role && r.phone == u.phone && r.token == u.token
    {
      var uid := if u.uid.Some? && IndexWhere(rows, UidIs(u.uid.value)).Some? then u.uid.value else nextUid;
      UserRecord(uid, u.username, u.pw, u.email, u.nickname, u.role, u.phone, u.token)
    }

    /** save: insert a new row or overwrite the row with the entity's uid;
        `saved` is false when the integrity constraints refuse the row, and
        then nothing is written. */
    method Save(u: User) returns (saved: bool)
      requires Valid()
      modifies this
      ensures Valid()
      ensures saved == admits(old(RowFor(u)))
      ensures rows == (if saved then Upsert(old(rows), old(RowFor(u))) else old(rows))
      ensures nextUid == (if saved && old(RowFor(u)).uid == old(nextUid) then old(nextUid) + 1 else old(nextUid))
    {
      var row := RowFor(u);
      if !admits(row) {
        return false;
      }
      if row.uid == nextUid {
        assert IndexWhere(rows, UidIs(row.uid)).None?;
        nextUid := nextUid + 1;
      }
      rows := Upsert(rows, row);
      return true;
    }
  }
}
