/**
 * What every run of the user manager keeps: distinct tokens, fixed administrators and one-shot challenges.
 */
module UserRuns {
  import opened Common
  import opened Users

  datatype Step =
    | DoLogin(login: LoginParam, now: int, challenge: string, newToken: string)
    | DoPasswd(passwd: PasswdParam, now: int, challenge: string)
    | DoLogout(session: Option<string>, now: int)
    | DoAdd(add: Option<AddParam>, now: int)
    | DoDelete(delete: Option<DeleteParam>, now: int)
    | DoTopUp(topUp: Option<TopUpParam>, now: int)
    | Flush
    | Timer(now: int)
    | Open(token: string)

  ghost function Perform(s: State, step: Step, digest: Digest): (State, Reply) {
    match step
    case DoLogin(p, now, challenge, newToken) => Login(s, p, now, challenge, newToken, digest)
    case DoPasswd(p, now, challenge) => Passwd(s, p, now, challenge, digest)
    case DoLogout(token, now) => Logout(s, token, now)
    case DoAdd(p, now) => AddUser(s, p, now)
    case DoDelete(p, now) => DeleteUser(s, p, now)
    case DoTopUp(p, now) => TopUp(s, p, now)
    case Flush => (WriteCache(s), Accepted)
    case Timer(now) => (TimerPass(s, now), Accepted)
    case Open(token) => (CountOpening(s, token), Accepted)
  }

  ghost function Next(s: State, step: Step, digest: Digest): State {
    Perform(s, step, digest).0
  }

  ghost predicate TokenInUse(s: State, token: string) {
    token in s.pending || exists i :: 0 <= i < |s.rows| && s.rows[i].token == token
  }

  /** Generated tokens are new, and openings are counted only for a token that may open the door. */
  ghost predicate Fair(s: State, step: Step) {
    match step
    case DoLogin(_, _, _, newToken) => newToken != "" && !TokenInUse(s, newToken)
    case Open(token) => CanOpen(s, token)
    case _ => true
  }

  ghost predicate IsRun(states: seq<State>, steps: seq<Step>, digest: Digest) {
    && |states| == |steps| + 1
    && forall i {:trigger steps[i]} :: 0 <= i < |steps| ==>
         Fair(states[i], steps[i]) && states[i + 1] == Next(states[i], steps[i], digest)
  }

  // ---------- tokens and administrators ----------

  /** No two rows share a token, unless it is the empty one. */
  ghost predicate TokensDiffer(rows: seq<Row>) {
    forall i, j :: 0 <= i < j < |rows| && rows[i].token == rows[j].token ==> rows[i].token == ""
  }

  ghost predicate IsAdmin(rows: seq<Row>, name: string) {
    exists i :: 0 <= i < |rows| && rows[i].username == name && rows[i].authority == ADMIN
  }

  ghost predicate SameAdmins(a: seq<Row>, b: seq<Row>) {
    forall name :: IsAdmin(a, name) <==> IsAdmin(b, name)
  }

  ghost predicate Core(rows: seq<Row>) {
    TableOk(rows) && TokensDiffer(rows)
  }

  /** The row of a nonempty token is the only one with that token. */
  lemma TokenFinds(rows: seq<Row>, i: nat)
    requires TokensDiffer(rows) && i < |rows| && rows[i].token != ""
    ensures ByToken(rows, rows[i].token) == i && TokenRow(rows, rows[i].token) == rows[i]
  {
  }

  /** Replacing row i by one of the same user keeps everything, if its token is the old one, none, or new. */
  lemma ReplaceKeepsCore(rows: seq<Row>, i: nat, row: Row)
    requires Core(rows) && i < |rows| && row.username == rows[i].username && row.authority == rows[i].authority
    requires row.token == rows[i].token || row.token == "" || forall j :: 0 <= j < |rows| ==> rows[j].token != row.token
    ensures Update(rows, row) == if row.password == "" then rows else rows[i := row]
    ensures Core(Update(rows, row)) && SameAdmins(rows, Update(rows, row))
  {
    ByNameFinds(rows, i);
    var rows' := Update(rows, row);
    forall name ensures IsAdmin(rows, name) <==> IsAdmin(rows', name) {
      if IsAdmin(rows, name) {
        var k :| 0 <= k < |rows| && rows[k].username == name && rows[k].authority == ADMIN;
        assert rows'[k].username == name;
      }
    }
  }

  /** The same for the row a token leads to; a token that leads nowhere changes nothing. */
  lemma UpdateTokenRowKeepsCore(rows: seq<Row>, token: string, row: Row)
    requires Core(rows) && row.username == TokenRow(rows, token).username
    requires row.authority == TokenRow(rows, token).authority
    requires row.token == TokenRow(rows, token).token || row.token == ""
    ensures Core(Update(rows, row)) && SameAdmins(rows, Update(rows, row))
  {
    var i := ByToken(rows, token);
    if i < |rows| {
      ReplaceKeepsCore(rows, i, row);
    }
  }

  lemma ChargedKeepsCore(rows: seq<Row>, pending: map<string, nat>)
    requires Core(rows)
    ensures Core(Charged(rows, pending)) && SameAdmins(rows, Charged(rows, pending))
  {
    var rows' := Charged(rows, pending);
    assert forall i :: 0 <= i < |rows| ==>
             rows'[i].username == rows[i].username && rows'[i].authority == rows[i].authority
             && rows'[i].token == rows[i].token && rows'[i].password == rows[i].password;
  }

  lemma LoginKeepsCore(s: State, step: Step, digest: Digest)
    requires step.DoLogin? && Core(s.rows) && Fair(s, step)
    ensures Core(Next(s, step, digest).rows) && SameAdmins(s.rows, Next(s, step, digest).rows)
  {
    var p := step.login;
    if p.username.Some? && p.binduser.Some? && ByName(s.rows, p.username.value) < |s.rows| {
      var i := ByName(s.rows, p.username.value);
      if p.username.value !in s.challenges {
        ReplaceKeepsCore(s.rows, i, s.rows[i].(token := step.newToken, binduser := p.binduser.value));
      } else if p.token.Some? {
        var row := TokenRow(s.rows, p.token.value);
        UpdateTokenRowKeepsCore(s.rows, p.token.value, row.(lastVerify := step.now));
        UpdateTokenRowKeepsCore(s.rows, p.token.value, row.(token := ""));
      }
    }
  }

  lemma AddKeepsCore(s: State, p: Option<AddParam>, now: int)
    requires Core(s.rows)
    ensures Core(AddUser(s, p, now).0.rows) && SameAdmins(s.rows, AddUser(s, p, now).0.rows)
  {
    var rows' := AddUser(s, p, now).0.rows;
    if rows' != s.rows {
      AppendKeepsCore(s.rows, rows'[|s.rows|]);
    }
  }

  /** A new user has no token and is no administrator. */
  lemma AppendKeepsCore(rows: seq<Row>, row: Row)
    requires Core(rows) && ByName(rows, row.username) == |rows|
    requires row.username != "" && row.password != "" && row.token == "" && row.authority != ADMIN
    ensures Core(rows + [row]) && SameAdmins(rows, rows + [row])
  {
    assert forall i :: 0 <= i < |rows| ==> rows[i].username != row.username;
    forall name ensures IsAdmin(rows, name) <==> IsAdmin(rows + [row], name) {
      if IsAdmin(rows, name) {
        var k :| 0 <= k < |rows| && rows[k].username == name && rows[k].authority == ADMIN;
        assert (rows + [row])[k].username == name;
      }
    }
  }

  lemma WithoutKeepsCore(rows: seq<Row>, i: nat)
    requires Core(rows) && i < |rows| && rows[i].authority <= LONGTERM
    ensures Core(Without(rows, i)) && SameAdmins(rows, Without(rows, i))
  {
    var rows' := Without(rows, i);
    assert forall j :: 0 <= j < |rows'| ==> rows'[j] == rows[if j < i then j else j + 1];
    forall name ensures IsAdmin(rows, name) <==> IsAdmin(rows', name) {
      WithoutKeepsAdmin(rows, i, name);
    }
  }

  lemma WithoutKeepsAdmin(rows: seq<Row>, i: nat, name: string)
    requires i < |rows| && rows[i].authority <= LONGTERM
    ensures IsAdmin(rows, name) <==> IsAdmin(Without(rows, i), name)
  {
    var rows' := Without(rows, i);
    assert forall j :: 0 <= j < |rows'| ==> rows'[j] == rows[if j < i then j else j + 1];
    if IsAdmin(rows, name) {
      var k :| 0 <= k < |rows| && rows[k].username == name && rows[k].authority == ADMIN;
      assert rows'[if k < i then k else k - 1] == rows[k];
    }
  }

  lemma PasswdKeepsCore(s: State, p: PasswdParam, now: int, challenge: string, digest: Digest)
    requires Core(s.rows)
    ensures var rows' := Passwd(s, p, now, challenge, digest).0.rows; Core(rows') && SameAdmins(s.rows, rows')
  {
    if p.token.Some? && p.newPassword.Some? {
      UpdateTokenRowKeepsCore(s.rows, p.token.value,
                              TokenRow(s.rows, p.token.value).(password := p.newPassword.value, token := ""));
    }
  }

  lemma LogoutKeepsCore(s: State, token: Option<string>, now: int)
    requires Core(s.rows)
    ensures Core(Logout(s, token, now).0.rows) && SameAdmins(s.rows, Logout(s, token, now).0.rows)
  {
    if token.Some? {
      UpdateTokenRowKeepsCore(s.rows, token.value, TokenRow(s.rows, token.value).(token := "", binduser := ""));
    }
  }

  lemma DeleteKeepsCore(s: State, p: Option<DeleteParam>, now: int)
    requires Core(s.rows)
    ensures Core(DeleteUser(s, p, now).0.rows) && SameAdmins(s.rows, DeleteUser(s, p, now).0.rows)
  {
    if DeleteUser(s, p, now).1.Accepted? {
      WithoutKeepsCore(s.rows, ByName(s.rows, p.value.username));
    }
  }

  lemma TopUpKeepsCore(s: State, p: Option<TopUpParam>, now: int)
    requires Core(s.rows)
    ensures Core(TopUp(s, p, now).0.rows) && SameAdmins(s.rows, TopUp(s, p, now).0.rows)
  {
    if TopUp(s, p, now).1.Accepted? {
      var i := ByName(s.rows, p.value.username);
      var admin := TokenRow(s.rows, p.value.token);
      var validity := if now < p.value.validity < admin.validity then p.value.validity else s.rows[i].validity;
      ReplaceKeepsCore(s.rows, i, s.rows[i].(validity := validity, remainOpen := p.value.remainOpen));
    }
  }

  lemma NextKeepsCore(s: State, step: Step, digest: Digest)
    requires Core(s.rows) && Fair(s, step)
    ensures Core(Next(s, step, digest).rows) && SameAdmins(s.rows, Next(s, step, digest).rows)
  {
    match step
    case DoLogin(_, _, _, _) => LoginKeepsCore(s, step, digest);
    case DoPasswd(p, now, challenge) => PasswdKeepsCore(s, p, now, challenge, digest);
    case DoLogout(token, now) => LogoutKeepsCore(s, token, now);
    case DoAdd(p, now) => AddKeepsCore(s, p, now);
    case DoDelete(p, now) => DeleteKeepsCore(s, p, now);
    case DoTopUp(p, now) => TopUpKeepsCore(s, p, now);
    case Flush => ChargedKeepsCore(s.rows, s.pending);
    case Timer(_) => ChargedKeepsCore(s.rows, s.pending);
    case Open(_) =>
  }

  /** In every run no two users share a nonempty token, and the administrators stay the same. */
  lemma {:induction false} EveryRunKeepsTokensAndAdmins(states: seq<State>, steps: seq<Step>, digest: Digest, n: nat)
    requires IsRun(states, steps, digest) && n < |states| && Core(states[0].rows)
    ensures Core(states[n].rows) && SameAdmins(states[0].rows, states[n].rows)
  {
    if n > 0 {
      EveryRunKeepsTokensAndAdmins(states, steps, digest, n - 1);
      NextKeepsCore(states[n - 1], steps[n - 1], digest);
    }
  }

  // ---------- challenges ----------

  /** The user a challenge is issued to or expected from. */
  function Asker(s: State, step: Step): Option<string> {
    match step
    case DoLogin(p, _, _, _) => p.username
    case DoPasswd(p, _, _) => if p.token.Some? then Some(TokenRow(s.rows, p.token.value).username) else None
    case _ => None
  }

  ghost predicate Issues(s: State, step: Step, digest: Digest, name: string, text: string) {
    && Asker(s, step) == Some(name)
    && Perform(s, step, digest).1.Issued?
    && Perform(s, step, digest).1.challenge == text
  }

  /** The step uses up the outstanding challenge of name as its second half. */
  ghost predicate Answers(s: State, step: Step, digest: Digest, name: string) {
    Asker(s, step) == Some(name) && name in s.challenges && name !in Next(s, step, digest).challenges
  }

  ghost predicate Expires(s: State, step: Step, name: string) {
    step.Timer? && name in s.challenges && TooOld(s.challenges[name], step.now)
  }

  /** The challenges after a login or password change: one more, one less, or the same. */
  ghost predicate AskedOnce(s: State, name: Option<string>, s': State, reply: Reply, now: int) {
    match reply
    case Issued(text, _) => name.Some? && name.value !in s.challenges
                            && s'.challenges == s.challenges[name.value := Challenge(text, now)]
    case _ => s'.challenges == s.challenges
              || (name.Some? && name.value in s.challenges && s'.challenges == s.challenges - {name.value})
  }

  lemma LoginAsks(s: State, p: LoginParam, now: int, challenge: string, newToken: string, digest: Digest)
    ensures var (s', reply) := Login(s, p, now, challenge, newToken, digest);
            AskedOnce(s, p.username, s', reply, now)
  {
  }

  lemma PasswdAsks(s: State, p: PasswdParam, now: int, challenge: string, digest: Digest)
    ensures var (s', reply) := Passwd(s, p, now, challenge, digest);
            AskedOnce(s, if p.token.Some? then Some(TokenRow(s.rows, p.token.value).username) else None, s', reply, now)
  {
  }

  lemma AskingStep(s: State, step: Step, digest: Digest)
    requires step.DoLogin? || step.DoPasswd?
    ensures AskedOnce(s, Asker(s, step), Next(s, step, digest), Perform(s, step, digest).1, step.now)
  {
    match step
    case DoLogin(p, now, challenge, newToken) => LoginAsks(s, p, now, challenge, newToken, digest);
    case DoPasswd(p, now, challenge) => PasswdAsks(s, p, now, challenge, digest);
  }

  lemma OtherStep(s: State, step: Step, digest: Digest)
    requires !step.DoLogin? && !step.DoPasswd?
    ensures !step.Timer? ==> Next(s, step, digest).challenges == s.challenges
    ensures !Perform(s, step, digest).1.Issued?
  {
  }

  /** One step changes the challenge of a user only by issuing where none was, by answering, or by expiry. */
  lemma ChallengeStep(s: State, step: Step, digest: Digest, name: string)
    ensures var s' := Next(s, step, digest);
            && (name in s'.challenges && name !in s.challenges ==>
                  Issues(s, step, digest, name, s'.challenges[name].text))
            && (name in s'.challenges && name in s.challenges ==> s'.challenges[name] == s.challenges[name])
            && (name !in s'.challenges && name in s.challenges ==>
                  Answers(s, step, digest, name) || Expires(s, step, name))
            && (forall text :: Issues(s, step, digest, name, text) ==> name !in s.challenges && name in s'.challenges
                                                                       && s'.challenges[name].text == text)
  {
    if step.DoLogin? || step.DoPasswd? {
      AskingStep(s, step, digest);
    } else {
      OtherStep(s, step, digest);
    }
  }

  /** An outstanding challenge was issued by some earlier step and has stood untouched since. */
  lemma {:induction false} OutstandingWasIssued(states: seq<State>, steps: seq<Step>, digest: Digest, n: nat,
                                                name: string)
    returns (i: nat)
    requires IsRun(states, steps, digest) && n < |states| && states[0].challenges == map[]
    requires name in states[n].challenges
    ensures i < n && Issues(states[i], steps[i], digest, name, states[n].challenges[name].text)
    ensures forall j :: i < j <= n ==>
              name in states[j].challenges && states[j].challenges[name] == states[n].challenges[name]
  {
    ChallengeStep(states[n - 1], steps[n - 1], digest, name);
    if name in states[n - 1].challenges {
      i := OutstandingWasIssued(states, steps, digest, n - 1, name);
    } else {
      i := n - 1;
    }
  }

  /**
   * A second step that succeeds proved the password against the challenge of the latest issue to that user,
   * which no step in between had consumed, and the challenge is gone afterwards.
   */
  lemma AcceptedStepAnswersLatestIssue(states: seq<State>, steps: seq<Step>, digest: Digest, n: nat) returns (i: nat)
    requires IsRun(states, steps, digest) && n < |steps| && states[0].challenges == map[]
    requires (steps[n].DoLogin? || steps[n].DoPasswd?) && Perform(states[n], steps[n], digest).1.Accepted?
    ensures i < n
    ensures var name := Asker(states[n], steps[n]);
            && name.Some? && name.value in states[n].challenges
            && var text := states[n].challenges[name.value].text;
            && Issues(states[i], steps[i], digest, name.value, text)
            && (forall j :: i < j <= n ==>
                  name.value in states[j].challenges && states[j].challenges[name.value].text == text)
            && name.value !in states[n + 1].challenges
            && ByName(states[n].rows, name.value) < |states[n].rows|
            && var stored := states[n].rows[ByName(states[n].rows, name.value)].password;
            && (steps[n].DoLogin? ==> steps[n].login.password == Some(digest(digest("login" + stored) + text)))
            && (steps[n].DoPasswd? ==> steps[n].passwd.password == Some(digest(digest("passwd" + stored) + text)))
  {
    var name := Asker(states[n], steps[n]);
    i := OutstandingWasIssued(states, steps, digest, n, name.value);
    AcceptedAnswersOutstanding(states[n], steps[n], digest);
  }

  /** The same for the one step: it was the digest of the user's stored password and the outstanding challenge. */
  lemma AcceptedAnswersOutstanding(s: State, step: Step, digest: Digest)
    requires (step.DoLogin? || step.DoPasswd?) && Perform(s, step, digest).1.Accepted?
    ensures var name := Asker(s, step);
            && name.Some? && name.value in s.challenges && name.value !in Next(s, step, digest).challenges
            && ByName(s.rows, name.value) < |s.rows|
            && var stored := s.rows[ByName(s.rows, name.value)].password;
            var text := s.challenges[name.value].text;
            && (step.DoLogin? ==> step.login.password == Some(digest(digest("login" + stored) + text)))
            && (step.DoPasswd? ==> step.passwd.password == Some(digest(digest("passwd" + stored) + text)))
  {
  }

  /** Step m takes the challenge of name away; ChallengeStep says that this is an answer or an expiry. */
  predicate RemovedBy(states: seq<State>, m: nat, name: string)
    requires m + 1 < |states|
  {
    name in states[m].challenges && name !in states[m + 1].challenges
  }

  /** One-shot: two removals of a challenge of the same user, by answer or expiry, remove two different issues. */
  lemma ChallengesAreOneShot(states: seq<State>, steps: seq<Step>, digest: Digest, m: nat, n: nat, name: string)
    returns (i: nat, j: nat)
    requires IsRun(states, steps, digest) && m < n < |steps| && states[0].challenges == map[]
    requires RemovedBy(states, m, name) && RemovedBy(states, n, name)
    ensures i < m < j < n
    ensures Issues(states[i], steps[i], digest, name, states[m].challenges[name].text)
    ensures Issues(states[j], steps[j], digest, name, states[n].challenges[name].text)
  {
    i := OutstandingWasIssued(states, steps, digest, m, name);
    j := OutstandingWasIssued(states, steps, digest, n, name);
  }

  /** Between two issues to the same user the first challenge was answered or had expired. */
  lemma IssuesAlternateWithRemovals(states: seq<State>, steps: seq<Step>, digest: Digest, i: nat, j: nat, name: string,
                                    first: string, second: string)
    returns (k: nat)
    requires IsRun(states, steps, digest) && i < j < |steps|
    requires Issues(states[i], steps[i], digest, name, first) && Issues(states[j], steps[j], digest, name, second)
    ensures i < k < j
    ensures Answers(states[k], steps[k], digest, name) || Expires(states[k], steps[k], name)
    ensures RemovedBy(states, k, name) && states[k].challenges[name].text == first
  {
    ChallengeStep(states[i], steps[i], digest, name);
    ChallengeStep(states[j], steps[j], digest, name);
    k := i + 1;
    while name in states[k + 1].challenges
      invariant i < k < j
      invariant name in states[k].challenges && states[k].challenges[name].text == first
      decreases j - k
    {
      ChallengeStep(states[k], steps[k], digest, name);
      k := k + 1;
    }
    ChallengeStep(states[k], steps[k], digest, name);
  }

  /** After a timer pass no challenge is older than 60 whole seconds, and younger ones are all still there. */
  lemma TimerLeavesYoungChallenges(s: State, now: int)
    ensures forall name :: name in TimerPass(s, now).challenges
                           <==> name in s.challenges && now - s.challenges[name].born < 61_000_000
    ensures forall name :: name in TimerPass(s, now).challenges ==>
                             TimerPass(s, now).challenges[name] == s.challenges[name]
  {
  }
}
