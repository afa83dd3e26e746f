/** CUserManager performing in place the operations that Users specifies. */
module UserManagement {
  import opened Common
  import opened Users

  class UserManager {
    var rows: seq<Row>
    var pending: map<string, nat>
    var challenges: map<string, Challenge>
    var push: Push
    const digest: Digest

    function Contents(): State
      reads this
    {
      State(rows, pending, challenges, push)
    }

    constructor (rows: seq<Row>, push: Push, digest: Digest)
      ensures Contents() == State(rows, map[], map[], push) && this.digest == digest
    {
      this.rows := rows;
      this.push := push;
      this.digest := digest;
      pending, challenges := map[], map[];
    }

    // ---------- the table ----------

    method FindByName(name: string) returns (i: nat)
      ensures i == ByName(rows, name)
    {
      i := 0;
      while i < |rows|
        invariant i <= |rows|
        invariant forall j :: 0 <= j < i ==> rows[j].username != name
      {
        if rows[i].username == name { return; }
        i := i + 1;
      }
    }

    /** Every matching row is fetched into the same record, so the last one stays. */
    method GetUserByToken(token: string) returns (found: bool, row: Row)
      ensures found <==> ByToken(rows, token) < |rows|
      ensures row == TokenRow(rows, token)
    {
      found, row := false, BLANK_ROW.(token := token);
      for i := 0 to |rows|
        invariant found <==> exists j :: 0 <= j < i && rows[j].token == token
        invariant !found ==> row == BLANK_ROW.(token := token)
        invariant found ==> exists j :: 0 <= j < i && row == rows[j] && rows[j].token == token
                                        && forall k :: j < k < i ==> rows[k].token != token
      {
        if rows[i].token == token {
          found, row := true, rows[i];
        }
      }
    }

    method UpdateUser(row: Row)
      modifies this`rows
      ensures rows == Update(old(rows), row)
    {
      if row.username == "" || row.password == "" { return; }
      var i := FindByName(row.username);
      if i < |rows| {
        rows := rows[i := row];
      }
    }

    // ---------- quota ----------

    method CanUserOpenDoor(token: string) returns (can: bool)
      ensures can == CanOpen(Contents(), token)
    {
      var _, row := GetUserByToken(token);
      if row.remainOpen < 0 { return true; }
      if token !in pending {
        return row.remainOpen > 0;
      }
      return row.remainOpen - pending[token] > 0;
    }

    method UserOpenDoor(token: string)
      modifies this`pending
      ensures Contents() == CountOpening(old(Contents()), token)
    {
      if token !in pending {
        pending := pending[token := 1];
      } else {
        pending := pending[token := pending[token] + 1];
      }
    }

    /** writeCache's loop body. */
    method ChargeToken(token: string, openings: nat)
      requires TableOk(rows)
      modifies this`rows
      ensures rows == ChargeOne(old(rows), token, openings)
    {
      var found, row := GetUserByToken(token);
      if row.remainOpen > 0 {
        ByNameFinds(rows, ByToken(rows, token));
        ChargedRowUpdates(rows, token, openings);
        UpdateUser(row.(remainOpen := row.remainOpen - openings));
      }
    }

    /** Walks the counter, charging the row of each token, and empties it. */
    method FlushCache()
      requires TableOk(rows)
      modifies this
      ensures Contents() == WriteCache(old(Contents()))
    {
      ghost var done: map<string, nat> := map[];
      NothingCharged(rows);
      while pending.Keys != {}
        invariant challenges == old(challenges) && push == old(push)
        invariant Split(old(pending), done, pending)
        invariant rows == Charged(old(rows), done)
        decreases |pending|
      {
        ghost var some := Pick(pending.Keys);
        var token :| token in pending.Keys;
        var openings := pending[token];
        ChargedOk(old(rows), done);
        ChargeToken(token, openings);
        ChargeOneMore(old(rows), done, token, openings);
        SplitMove(old(pending), done, pending, token);
        done := done[token := openings];
        pending := pending - {token};
      }
      SplitEnds(old(pending), done, pending);
    }

    // ---------- challenges ----------

    /** Flushes the counter, then walks the challenges and drops those that are too old. */
    method TimerCallback(now: int)
      requires TableOk(rows)
      modifies this
      ensures Contents() == TimerPass(old(Contents()), now)
    {
      FlushCache();
      var todo := challenges.Keys;
      while todo != {}
        invariant rows == Charged(old(rows), old(pending)) && pending == map[] && push == old(push)
        invariant todo <= challenges.Keys <= old(challenges).Keys
        invariant forall n :: n in old(challenges) ==>
                    (n in challenges <==> n in todo || !TooOld(old(challenges)[n], now))
        invariant forall n :: n in challenges ==> challenges[n] == old(challenges)[n]
        decreases |todo|
      {
        ghost var some := Pick(todo);
        var name :| name in todo;
        todo := todo - {name};
        if TooOld(challenges[name], now) {
          challenges := challenges - {name};
        }
      }
      assert challenges == TimerPass(old(Contents()), now).challenges;
    }

    method DoLogin(p: LoginParam, now: int, challenge: string, newToken: string) returns (reply: Reply)
      modifies this
      ensures (Contents(), reply) == Login(old(Contents()), p, now, challenge, newToken, digest)
    {
      if p.username.None? || p.binduser.None? { return Refused("400"); }
      var name := p.username.value;
      var i := FindByName(name);
      if i == |rows| { return Refused("411"); }
      var user := rows[i];
      if name !in challenges {
        // step 1: a new challenge and a new token
        if TotalSeconds(user.validity - now) < 0 { return Refused("402"); }
        if name == "admin" {
          if user.binduser != "" && user.binduser != p.binduser.value { return BoundTo(user.binduser); }
        } else {
          if user.binduser != p.binduser.value { return BoundTo(user.binduser); }
        }
        UpdateUser(user.(token := newToken, binduser := p.binduser.value));
        challenges := challenges[name := Challenge(challenge, now)];
        return Issued(challenge, Some(newToken));
      } else {
        // step 2: the challenge is used up whatever follows
        var text := challenges[name].text;
        challenges := challenges - {name};
        if p.token.None? { return Refused("400"); }
        var _, row := GetUserByToken(p.token.value);
        if p.password.None? { return Refused("400"); }
        if VerifyPassword(rows, name, p.password.value, "login", text, digest) {
          UpdateUser(row.(lastVerify := now));
          if name == "admin" && (p.mobile.Some? || p.installation.Some?) {
            var mobile := if p.mobile.Some? then p.mobile.value else "";
            var installation := if p.installation.Some? then p.installation.value else "";
            if push.mobile != mobile || push.installation != installation {
              push := Push(mobile, installation);
            }
          }
          return Accepted;
        } else {
          UpdateUser(row.(token := ""));
          return Refused("416");
        }
      }
    }

    method DoPasswd(p: PasswdParam, now: int, challenge: string) returns (reply: Reply)
      modifies this
      ensures (Contents(), reply) == Passwd(old(Contents()), p, now, challenge, digest)
    {
      if p.token.None? { return Refused("400"); }
      var found, row := GetUserByToken(p.token.value);
      if !found || !Valid(row, now) { return Refused("402"); }
      var name := row.username;
      if name !in challenges {
        challenges := challenges[name := Challenge(challenge, now)];
        return Issued(challenge, None);
      }
      var text := challenges[name].text;
      challenges := challenges - {name};
      if p.newPassword.None? || p.password.None? { return Refused("400"); }
      if VerifyPassword(rows, name, p.password.value, "passwd", text, digest) {
        UpdateUser(row.(password := p.newPassword.value, token := ""));
        return Accepted;
      }
      return Refused("416");
    }

    method DoLogout(token: Option<string>, now: int) returns (reply: Reply)
      modifies this
      ensures (Contents(), reply) == Logout(old(Contents()), token, now)
    {
      if token.None? { return Refused("400"); }
      var found, row := GetUserByToken(token.value);
      if !found || !Valid(row, now) { return Refused("402"); }
      UpdateUser(row.(token := "", binduser := ""));
      push := Push("", "");
      return Accepted;
    }

    // ---------- administration ----------

    method DoAddUser(p: Option<AddParam>, now: int) returns (reply: Reply)
      modifies this
      ensures (Contents(), reply) == AddUser(old(Contents()), p, now)
    {
      if p.None? { return Refused("400"); }
      var a := p.value;
      var found, login := GetUserByToken(a.token);
      if !found || !Valid(login, now) { return Refused("402"); }
      var i := FindByName(a.username);
      if i < |rows| { return Refused("410"); }
      if login.authority != ADMIN || a.authority < TEMPORARY || a.authority > LONGTERM { return Refused("412"); }
      if a.username != "" && a.password != "" {
        rows := rows + [BLANK_ROW.(username := a.username, password := a.password, binduser := a.binduser,
                                  authority := a.authority, validity := a.validity, remainOpen := a.remainOpen)];
      }
      return Accepted;
    }

    method DoDeleteUser(p: Option<DeleteParam>, now: int) returns (reply: Reply)
      modifies this
      ensures (Contents(), reply) == DeleteUser(old(Contents()), p, now)
    {
      if p.None? { return Refused("400"); }
      var found, login := GetUserByToken(p.value.token);
      if !found || !Valid(login, now) { return Refused("402"); }
      var i := FindByName(p.value.username);
      if i == |rows| { return Refused("411"); }
      if login.authority != ADMIN || rows[i].authority > LONGTERM { return Refused("412"); }
      rows := rows[..i] + rows[i + 1..];
      return Accepted;
    }

    method DoTopUp(p: Option<TopUpParam>, now: int) returns (reply: Reply)
      modifies this
      ensures (Contents(), reply) == TopUp(old(Contents()), p, now)
    {
      if p.None? { return Refused("400"); }
      var a := p.value;
      var found, login := GetUserByToken(a.token);
      if !found || !Valid(login, now) { return Refused("402"); }
      if login.authority != ADMIN { return Refused("412"); }
      var i := FindByName(a.username);
      if i == |rows| { return Refused("410"); }
      var user := rows[i];
      if a.validity > now && a.validity < login.validity {
        user := user.(validity := a.validity);
      }
      user := user.(remainOpen := a.remainOpen);
      UpdateUser(user);
      return Accepted;
    }
  }

  /** The counter's entries, divided into those charged already and those left. */
  ghost predicate Split(all: map<string, nat>, done: map<string, nat>, left: map<string, nat>) {
    && (forall t :: t in all <==> t in done || t in left)
    && (forall t :: t in done ==> t !in left && t in all && done[t] == all[t])
    && (forall t :: t in left ==> t in all && left[t] == all[t])
  }

  lemma SplitMove(all: map<string, nat>, done: map<string, nat>, left: map<string, nat>, token: string)
    requires Split(all, done, left) && token in left
    ensures Split(all, done[token := left[token]], left - {token})
  {
  }

  lemma SplitEnds(all: map<string, nat>, done: map<string, nat>, left: map<string, nat>)
    requires Split(all, done, left) && left.Keys == {}
    ensures done == all && left == map[]
  {
    assert done.Keys == all.Keys;
  }

  lemma NothingCharged(rows: seq<Row>)
    ensures Charged(rows, map[]) == rows
  {
  }

  function ChargeOne(rows: seq<Row>, token: string, openings: nat): seq<Row> {
    var i := ByToken(rows, token);
    if i < |rows| && rows[i].remainOpen > 0
    then rows[i := rows[i].(remainOpen := rows[i].remainOpen - openings)]
    else rows
  }

  lemma ChargedRowUpdates(rows: seq<Row>, token: string, openings: nat)
    requires TableOk(rows) && TokenRow(rows, token).remainOpen > 0
    ensures var row := TokenRow(rows, token);
            Update(rows, row.(remainOpen := row.remainOpen - openings)) == ChargeOne(rows, token, openings)
  {
    ByNameFinds(rows, ByToken(rows, token));
  }

  lemma SameTokens(a: seq<Row>, b: seq<Row>, token: string)
    requires |a| == |b| && forall i :: 0 <= i < |a| ==> a[i].token == b[i].token
    ensures ByToken(a, token) == ByToken(b, token)
  {
  }

  lemma ChargedOk(rows: seq<Row>, pending: map<string, nat>)
    requires TableOk(rows)
    ensures TableOk(Charged(rows, pending))
  {
  }

  lemma ChargeOneMore(rows: seq<Row>, done: map<string, nat>, token: string, openings: nat)
    requires token !in done
    ensures ChargeOne(Charged(rows, done), token, openings) == Charged(rows, done[token := openings])
  {
    SameTokens(rows, Charged(rows, done), token);
    var more := done[token := openings];
    forall i | 0 <= i < |rows|
      ensures ChargeOne(Charged(rows, done), token, openings)[i] == ChargedRow(rows, more, i)
    {
      ChargeOneMoreAt(rows, done, token, openings, i);
    }
  }

  lemma ChargeOneMoreAt(rows: seq<Row>, done: map<string, nat>, token: string, openings: nat, i: nat)
    requires token !in done && i < |rows| && ByToken(rows, token) == ByToken(Charged(rows, done), token)
    ensures ChargeOne(Charged(rows, done), token, openings)[i] == ChargedRow(rows, done[token := openings], i)
  {
  }
}
