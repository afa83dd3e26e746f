/**
 * CUserManager over the user table of CUserRecord: the specification of every operation on a value of type
 * State.  The table is a sequence of rows in table order; times are microseconds; the digest function is a
 * parameter.
 */
module Users {
  import opened Common

  datatype Row = Row(username: string, password: string, binduser: string, authority: int, validity: int,
                     remainOpen: int, token: string, lastVerify: int, lastLogin: int)

  datatype Challenge = Challenge(text: string, born: int)

  /** The APNS configuration: where push notices for the administrator go. */
  datatype Push = Push(mobile: string, installation: string)

  datatype State = State(
    rows: seq<Row>,
    pending: map<string, nat>,             // m_cache_map: openings not yet charged, by token
    challenges: map<string, Challenge>,    // m_challenge_map, by username
    push: Push)

  type Digest = string -> string

  const ADMIN := 9
  const LONGTERM := 8
  const TEMPORARY := 7
  const CHALLENGE_SECONDS := 60

  const BLANK_ROW := Row("", "", "", 0, 0, 0, "", 0, 0)

  /** Issued carries the token only for a login; BoundTo is refusal 418 with the user the account is bound to. */
  datatype Reply =
    | Accepted
    | Issued(challenge: string, token: Option<string>)
    | BoundTo(binduser: string)
    | Refused(detail: string)

  // ---------- the table ----------

  function ByName(rows: seq<Row>, name: string): nat {
    IndexWhere(rows, (r: Row) => r.username == name)
  }

  /** Position of the last row with the token, or |rows|. */
  function ByToken(rows: seq<Row>, token: string): (i: nat)
    ensures i <= |rows|
    ensures i < |rows| ==> rows[i].token == token
    ensures forall j :: (if i == |rows| then -1 else i) < j < |rows| ==> rows[j].token != token
  {
    if rows == [] then 0
    else
      var n := |rows| - 1;
      if rows[n].token == token then n
      else
        var i := ByToken(rows[..n], token);
        if i == n then n + 1 else i
  }

  /** getUserByToken fills a blank record. */
  function TokenRow(rows: seq<Row>, token: string): Row {
    var i := ByToken(rows, token);
    if i < |rows| then rows[i] else BLANK_ROW.(token := token)
  }

  /** updateUser: refused without username or password, otherwise the row of that username is replaced. */
  function Update(rows: seq<Row>, row: Row): seq<Row> {
    var i := ByName(rows, row.username);
    if row.username == "" || row.password == "" || i == |rows| then rows else rows[i := row]
  }

  /** Whole seconds of a time span, rounded towards zero. */
  function TotalSeconds(span: int): int {
    if span >= 0 then span / SECOND else -(-span / SECOND)
  }

  predicate Valid(row: Row, now: int) {
    TotalSeconds(row.validity - now) >= 0
  }

  predicate VerifyUser(rows: seq<Row>, token: string, now: int) {
    ByToken(rows, token) < |rows| && Valid(TokenRow(rows, token), now)
  }

  predicate VerifyPassword(rows: seq<Row>, name: string, password: string, prefix: string, challenge: string,
                           digest: Digest)
  {
    var i := ByName(rows, name);
    var stored := if i < |rows| then rows[i].password else "";
    digest(digest(prefix + stored) + challenge) == password
  }

  // ---------- quota ----------

  function Pending(s: State, token: string): nat {
    if token in s.pending then s.pending[token] else 0
  }

  predicate CanOpen(s: State, token: string) {
    var remain := TokenRow(s.rows, token).remainOpen;
    remain < 0 || remain - Pending(s, token) > 0
  }

  function CountOpening(s: State, token: string): State {
    s.(pending := s.pending[token := Pending(s, token) + 1])
  }

  /** writeCache's effect on row i: only the row found by its token is charged, and only if something remains. */
  function ChargedRow(rows: seq<Row>, pending: map<string, nat>, i: nat): Row
    requires i < |rows|
  {
    var row := rows[i];
    if row.token in pending && ByToken(rows, row.token) == i && row.remainOpen > 0
    then row.(remainOpen := row.remainOpen - pending[row.token])
    else row
  }

  function Charged(rows: seq<Row>, pending: map<string, nat>): seq<Row> {
    seq(|rows|, i requires 0 <= i < |rows| => ChargedRow(rows, pending, i))
  }

  function WriteCache(s: State): State {
    s.(rows := Charged(s.rows, s.pending), pending := map[])
  }

  predicate TooOld(c: Challenge, now: int) {
    TotalSeconds(now - c.born) > CHALLENGE_SECONDS
  }

  /** timerCallback: flush the counter, then drop challenges that are too old. */
  ghost function TimerPass(s: State, now: int): State {
    WriteCache(s).(challenges := map name | name in s.challenges && !TooOld(s.challenges[name], now)
                                   :: s.challenges[name])
  }

  // ---------- login and password change ----------

  datatype LoginParam = LoginParam(username: Option<string>, binduser: Option<string>, token: Option<string>,
                                   password: Option<string>, mobile: Option<string>, installation: Option<string>)

  /** An administrator's login that names a phone or an installation redirects the push notices. */
  function PushAfterLogin(push: Push, p: LoginParam): Push {
    if p.username == Some("admin") && (p.mobile.Some? || p.installation.Some?)
    then Push(OrEmpty(p.mobile), OrEmpty(p.installation))
    else push
  }

  function OrEmpty(s: Option<string>): string {
    if s.Some? then s.value else ""
  }

  predicate BoundElsewhere(row: Row, binduser: string) {
    row.binduser != binduser && (row.username == "admin" ==> row.binduser != "")
  }

  function Login(s: State, p: LoginParam, now: int, challenge: string, newToken: string, digest: Digest)
    : (State, Reply)
  {
    if p.username.None? || p.binduser.None? then (s, Refused("400"))
    else
      var name := p.username.value;
      var i := ByName(s.rows, name);
      if i == |s.rows| then (s, Refused("411"))
      else if name !in s.challenges then
        if !Valid(s.rows[i], now) then (s, Refused("402"))
        else if BoundElsewhere(s.rows[i], p.binduser.value) then (s, BoundTo(s.rows[i].binduser))
        else (s.(rows := Update(s.rows, s.rows[i].(token := newToken, binduser := p.binduser.value)),
                 challenges := s.challenges[name := Challenge(challenge, now)]),
              Issued(challenge, Some(newToken)))
      else
        var s1 := s.(challenges := s.challenges - {name});
        if p.token.None? || p.password.None? then (s1, Refused("400"))
        else
          var row := TokenRow(s.rows, p.token.value);
          if VerifyPassword(s.rows, name, p.password.value, "login", s.challenges[name].text, digest)
          then (s1.(rows := Update(s.rows, row.(lastVerify := now)), push := PushAfterLogin(s.push, p)), Accepted)
          else (s1.(rows := Update(s.rows, row.(token := ""))), Refused("416"))
  }

  datatype PasswdParam = PasswdParam(token: Option<string>, newPassword: Option<string>, password: Option<string>)

  function Passwd(s: State, p: PasswdParam, now: int, challenge: string, digest: Digest): (State, Reply) {
    if p.token.None? then (s, Refused("400"))
    else if !VerifyUser(s.rows, p.token.value, now) then (s, Refused("402"))
    else
      var row := TokenRow(s.rows, p.token.value);
      var name := row.username;
      if name !in s.challenges
      then (s.(challenges := s.challenges[name := Challenge(challenge, now)]), Issued(challenge, None))
      else
        var s1 := s.(challenges := s.challenges - {name});
        if p.newPassword.None? || p.password.None? then (s1, Refused("400"))
        else if VerifyPassword(s.rows, name, p.password.value, "passwd", s.challenges[name].text, digest)
        then (s1.(rows := Update(s.rows, row.(password := p.newPassword.value, token := ""))), Accepted)
        else (s1, Refused("416"))
  }

  function Logout(s: State, token: Option<string>, now: int): (State, Reply) {
    if token.None? then (s, Refused("400"))
    else if !VerifyUser(s.rows, token.value, now) then (s, Refused("402"))
    else (s.(rows := Update(s.rows, TokenRow(s.rows, token.value).(token := "", binduser := "")), push := Push("", "")),
          Accepted)
  }

  // ---------- administration; None is an incomplete request ----------

  datatype AddParam = AddParam(token: string, username: string, binduser: string, password: string, authority: int,
                               remainOpen: int, validity: int)

  /** The table silently refuses a row without username or password, yet the request counts as accepted. */
  function AddUser(s: State, p: Option<AddParam>, now: int): (State, Reply) {
    if p.None? then (s, Refused("400"))
    else
      var a := p.value;
      if !VerifyUser(s.rows, a.token, now) then (s, Refused("402"))
      else if ByName(s.rows, a.username) < |s.rows| then (s, Refused("410"))
      else if TokenRow(s.rows, a.token).authority != ADMIN || a.authority < TEMPORARY || a.authority > LONGTERM
      then (s, Refused("412"))
      else if a.username == "" || a.password == "" then (s, Accepted)
      else (s.(rows := s.rows + [Row(a.username, a.password, a.binduser, a.authority, a.validity, a.remainOpen,
                                     "", 0, 0)]),
            Accepted)
  }

  datatype DeleteParam = DeleteParam(token: string, username: string)

  function DeleteUser(s: State, p: Option<DeleteParam>, now: int): (State, Reply) {
    if p.None? then (s, Refused("400"))
    else if !VerifyUser(s.rows, p.value.token, now) then (s, Refused("402"))
    else
      var i := ByName(s.rows, p.value.username);
      if i == |s.rows| then (s, Refused("411"))
      else if TokenRow(s.rows, p.value.token).authority != ADMIN || s.rows[i].authority > LONGTERM
      then (s, Refused("412"))
      else (s.(rows := Without(s.rows, i)), Accepted)
  }

  datatype TopUpParam = TopUpParam(token: string, username: string, validity: int, remainOpen: int)

  function TopUp(s: State, p: Option<TopUpParam>, now: int): (State, Reply) {
    if p.None? then (s, Refused("400"))
    else
      var a := p.value;
      if !VerifyUser(s.rows, a.token, now) then (s, Refused("402"))
      else
        var admin := TokenRow(s.rows, a.token);
        var i := ByName(s.rows, a.username);
        if admin.authority != ADMIN then (s, Refused("412"))
        else if i == |s.rows| then (s, Refused("410"))
        else
          var validity := if now < a.validity < admin.validity then a.validity else s.rows[i].validity;
          (s.(rows := Update(s.rows, s.rows[i].(validity := validity, remainOpen := a.remainOpen))), Accepted)
  }

  // ---------- well-formed tables ----------

  /** Usernames are unique, and neither usernames nor passwords are empty. */
  ghost predicate TableOk(rows: seq<Row>) {
    && (forall i, j :: 0 <= i < j < |rows| ==> rows[i].username != rows[j].username)
    && (forall i :: 0 <= i < |rows| ==> rows[i].username != "" && rows[i].password != "")
  }

  lemma ByNameFinds(rows: seq<Row>, i: nat)
    requires TableOk(rows) && i < |rows|
    ensures ByName(rows, rows[i].username) == i
  {
  }
}
