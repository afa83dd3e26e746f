/**
 * What the user manager answers, stated over the rows of the table: who is let in, what is stored, and which
 * refusal everyone else gets.  Where passwords are concerned the digest is taken to be free of collisions.
 */
module UserAnswers {
  import opened Common
  import opened Users
  import opened UserRuns

  ghost predicate Injective(digest: Digest) {
    forall a, b :: digest(a) == digest(b) ==> a == b
  }

  /** An account is in force until a whole second after its validity has passed. */
  predicate InForce(row: Row, now: int) {
    row.validity - now > -1_000_000
  }

  lemma ValidMeansInForce(row: Row, now: int)
    ensures Valid(row, now) <==> InForce(row, now)
  {
  }

  /** Row i has a session: it is found by its token, which passes exactly while the account is in force. */
  lemma SessionIsFound(rows: seq<Row>, i: nat, now: int)
    requires Core(rows) && i < |rows| && rows[i].token != ""
    ensures TokenRow(rows, rows[i].token) == rows[i] && ByToken(rows, rows[i].token) == i
    ensures VerifyUser(rows, rows[i].token, now) <==> InForce(rows[i], now)
  {
    TokenFinds(rows, i);
    ValidMeansInForce(rows[i], now);
  }

  lemma ReplaceRow(rows: seq<Row>, i: nat, row: Row)
    requires Core(rows) && i < |rows| && row.username == rows[i].username && row.password != ""
    ensures Update(rows, row) == rows[i := row]
  {
    ByNameFinds(rows, i);
  }

  // ---------- login ----------

  /** The first step: a challenge and a token for an account in force that is free or bound to the asker. */
  lemma LoginIssuesExactly(s: State, i: nat, p: LoginParam, now: int, challenge: string, newToken: string,
                           digest: Digest)
    requires Core(s.rows) && i < |s.rows| && p.username == Some(s.rows[i].username) && p.binduser.Some?
    requires s.rows[i].username !in s.challenges
    ensures var (s', reply) := Login(s, p, now, challenge, newToken, digest);
            var row := s.rows[i];
            if !InForce(row, now) then (s', reply) == (s, Refused("402"))
            else if row.binduser != p.binduser.value && !(row.username == "admin" && row.binduser == "")
            then (s', reply) == (s, BoundTo(row.binduser))
            else
              && reply == Issued(challenge, Some(newToken))
              && s'.rows == s.rows[i := row.(token := newToken, binduser := p.binduser.value)]
              && s'.challenges == s.challenges[row.username := Challenge(challenge, now)]
              && s'.pending == s.pending && s'.push == s.push
  {
    ByNameFinds(s.rows, i);
    ValidMeansInForce(s.rows[i], now);
    if p.binduser.Some? {
      ReplaceRow(s.rows, i, s.rows[i].(token := newToken, binduser := p.binduser.value));
    }
  }

  /** A login that names nobody, or nobody known. */
  lemma UnknownLoginIsRefused(s: State, p: LoginParam, now: int, challenge: string, newToken: string, digest: Digest)
    ensures p.username.None? || p.binduser.None? ==>
              Login(s, p, now, challenge, newToken, digest) == (s, Refused("400"))
    ensures p.username.Some? && p.binduser.Some?
            && (forall i :: 0 <= i < |s.rows| ==> s.rows[i].username != p.username.value) ==>
              Login(s, p, now, challenge, newToken, digest) == (s, Refused("411"))
  {
  }

  lemma JoinsDiffer(x: string, c: string, y: string, d: string)
    requires |x| == |y| || |c| == |d|
    ensures x + c == y + d <==> x == y && c == d
  {
    if x + c == y + d {
      assert (x + c)[..|x|] == x && (y + d)[..|y|] == y;
      assert (x + c)[|x|..] == c && (y + d)[|y|..] == d;
    }
  }

  lemma DigestsDiffer(digest: Digest, a: string, c: string, b: string, d: string)
    requires Injective(digest) && (a == b || |c| == |d|)
    ensures digest(digest(a) + c) == digest(digest(b) + d) <==> a == b && c == d
  {
    JoinsDiffer(digest(a), c, digest(b), d);
  }

  lemma SamePrefix(prefix: string, v: string, w: string)
    ensures prefix + v == prefix + w <==> v == w
  {
    assert (prefix + v)[|prefix|..] == v && (prefix + w)[|prefix|..] == w;
  }

  /**
   * The second step: the answer computed from password w and challenge c is accepted exactly if w is the user's
   * stored password and c the outstanding challenge, and refused with 416 otherwise.
   */
  lemma LoginAnswerExactly(s: State, i: nat, p: LoginParam, w: string, c: string, now: int, challenge: string,
                           newToken: string, digest: Digest)
    requires Injective(digest) && Core(s.rows) && i < |s.rows| && s.rows[i].username in s.challenges
    requires p.username == Some(s.rows[i].username) && p.binduser.Some? && p.token.Some?
    requires p.password == Some(digest(digest("login" + w) + c))
    requires |c| == |s.challenges[s.rows[i].username].text| || w == s.rows[i].password
    ensures Login(s, p, now, challenge, newToken, digest).1
            == if w == s.rows[i].password && c == s.challenges[s.rows[i].username].text
               then Accepted else Refused("416")
  {
    ByNameFinds(s.rows, i);
    SamePrefix("login", w, s.rows[i].password);
    DigestsDiffer(digest, "login" + w, c, "login" + s.rows[i].password, s.challenges[s.rows[i].username].text);
  }

  /** What a second step leaves: the challenge is used up in any case, and the session of row k is verified or ended. */
  lemma LoginAnswerLeaves(s: State, i: nat, k: nat, p: LoginParam, now: int, challenge: string, newToken: string,
                          digest: Digest)
    requires Core(s.rows) && i < |s.rows| && k < |s.rows| && s.rows[i].username in s.challenges && s.rows[k].token != ""
    requires p.username == Some(s.rows[i].username) && p.binduser.Some? && p.token == Some(s.rows[k].token)
    ensures var (s', reply) := Login(s, p, now, challenge, newToken, digest);
            && s'.challenges == s.challenges - {s.rows[i].username} && s'.pending == s.pending
            && (p.password.None? ==> reply == Refused("400") && s'.rows == s.rows && s'.push == s.push)
            && (reply.Accepted? ==>
                  && s'.rows == s.rows[k := s.rows[k].(lastVerify := now)]
                  && s'.push == if s.rows[i].username == "admin" && (p.mobile.Some? || p.installation.Some?)
                                then Push(if p.mobile.Some? then p.mobile.value else "",
                                          if p.installation.Some? then p.installation.value else "")
                                else s.push)
            && (reply == Refused("416") ==> s'.rows == s.rows[k := s.rows[k].(token := "")] && s'.push == s.push)
  {
    ByNameFinds(s.rows, i);
    SessionIsFound(s.rows, k, now);
    ReplaceRow(s.rows, k, s.rows[k].(lastVerify := now));
    ReplaceRow(s.rows, k, s.rows[k].(token := ""));
  }

  /** An answer without token or password is refused and costs the challenge all the same. */
  lemma IncompleteAnswerCostsTheChallenge(s: State, i: nat, p: LoginParam, now: int, challenge: string,
                                          newToken: string, digest: Digest)
    requires Core(s.rows) && i < |s.rows| && s.rows[i].username in s.challenges
    requires p.username == Some(s.rows[i].username) && p.binduser.Some? && (p.token.None? || p.password.None?)
    ensures Login(s, p, now, challenge, newToken, digest)
            == (s.(challenges := s.challenges - {s.rows[i].username}), Refused("400"))
  {
    ByNameFinds(s.rows, i);
  }

  /**
   * An answer that was accepted once is refused ever after: in every run, when the same answer is sent again
   * for the same user, it meets a later issue, and if that issue's challenge has another text and the password
   * still stands, it is refused.
   */
  lemma ReplayedAnswerIsRefused(states: seq<State>, steps: seq<Step>, digest: Digest, m: nat, n: nat)
    returns (i: nat, j: nat)
    requires Injective(digest) && IsRun(states, steps, digest) && m < n < |steps| && states[0].challenges == map[]
    requires steps[m].DoLogin? && Perform(states[m], steps[m], digest).1.Accepted?
    requires steps[n].DoLogin? && steps[n].login.username == steps[m].login.username
    requires steps[n].login.password == steps[m].login.password
    requires steps[n].login.binduser.Some? && steps[n].login.token.Some?
    requires var name := steps[m].login.username;
             && name.Some? && name.value in states[n].challenges && name.value in states[m].challenges
             && states[n].challenges[name.value].text != states[m].challenges[name.value].text
             && (forall k :: k in {m, n} ==> ByName(states[k].rows, name.value) < |states[k].rows|)
             && states[m].rows[ByName(states[m].rows, name.value)].password
                == states[n].rows[ByName(states[n].rows, name.value)].password
    ensures i < m < j < n
    ensures var name := steps[m].login.username.value;
            && Issues(states[i], steps[i], digest, name, states[m].challenges[name].text)
            && Issues(states[j], steps[j], digest, name, states[n].challenges[name].text)
    ensures Perform(states[n], steps[n], digest).1 == Refused("416")
  {
    var name := steps[m].login.username.value;
    i := AcceptedStepAnswersLatestIssue(states, steps, digest, m);
    j := OutstandingWasIssued(states, steps, digest, n, name);
    RefusedOnOtherText(states[n], steps[n], digest, states[m].challenges[name].text);
  }

  /** The answer to another challenge is refused. */
  lemma RefusedOnOtherText(s: State, step: Step, digest: Digest, other: string)
    requires Injective(digest) && step.DoLogin? && step.login.username.Some? && step.login.binduser.Some?
    requires step.login.token.Some? && step.login.username.value in s.challenges
    requires ByName(s.rows, step.login.username.value) < |s.rows|
    requires s.challenges[step.login.username.value].text != other
    requires var stored := s.rows[ByName(s.rows, step.login.username.value)].password;
             step.login.password == Some(digest(digest("login" + stored) + other))
    ensures Perform(s, step, digest).1 == Refused("416")
  {
    var stored := s.rows[ByName(s.rows, step.login.username.value)].password;
    DigestsDiffer(digest, "login" + stored, other, "login" + stored, s.challenges[step.login.username.value].text);
  }

  // ---------- password change and logout ----------

  /** The first step of a password change: a challenge for whoever has a session in force. */
  lemma PasswdIssuesExactly(s: State, i: nat, p: PasswdParam, now: int, challenge: string, digest: Digest)
    requires Core(s.rows) && i < |s.rows| && s.rows[i].token != "" && p.token == Some(s.rows[i].token)
    ensures !InForce(s.rows[i], now) ==> Passwd(s, p, now, challenge, digest) == (s, Refused("402"))
    ensures InForce(s.rows[i], now) && s.rows[i].username !in s.challenges ==>
              Passwd(s, p, now, challenge, digest)
              == (s.(challenges := s.challenges[s.rows[i].username := Challenge(challenge, now)]),
                  Issued(challenge, None))
  {
    SessionIsFound(s.rows, i, now);
  }

  /**
   * The second step: accepted exactly for the stored password and the outstanding challenge.  An accepted
   * change stores the new password and ends the session, except that an empty password is not stored at all.
   */
  lemma PasswdAnswerExactly(s: State, i: nat, p: PasswdParam, w: string, c: string, now: int, challenge: string,
                            digest: Digest)
    requires Injective(digest) && Core(s.rows) && i < |s.rows| && s.rows[i].username in s.challenges
    requires s.rows[i].token != "" && p.token == Some(s.rows[i].token) && InForce(s.rows[i], now)
    requires p.newPassword.Some? && p.password == Some(digest(digest("passwd" + w) + c))
    requires |c| == |s.challenges[s.rows[i].username].text| || w == s.rows[i].password
    ensures var (s', reply) := Passwd(s, p, now, challenge, digest);
            && s'.challenges == s.challenges - {s.rows[i].username} && s'.pending == s.pending && s'.push == s.push
            && (if w == s.rows[i].password && c == s.challenges[s.rows[i].username].text
                then && reply == Accepted
                     && s'.rows == if p.newPassword.value == "" then s.rows
                                   else s.rows[i := s.rows[i].(password := p.newPassword.value, token := "")]
                else reply == Refused("416") && s'.rows == s.rows)
  {
    SessionIsFound(s.rows, i, now);
    ByNameFinds(s.rows, i);
    SamePrefix("passwd", w, s.rows[i].password);
    DigestsDiffer(digest, "passwd" + w, c, "passwd" + s.rows[i].password, s.challenges[s.rows[i].username].text);
    if p.newPassword.value != "" {
      ReplaceRow(s.rows, i, s.rows[i].(password := p.newPassword.value, token := ""));
    }
  }

  lemma IncompletePasswdCostsTheChallenge(s: State, i: nat, p: PasswdParam, now: int, challenge: string, digest: Digest)
    requires Core(s.rows) && i < |s.rows| && s.rows[i].username in s.challenges
    requires s.rows[i].token != "" && p.token == Some(s.rows[i].token) && InForce(s.rows[i], now)
    requires p.newPassword.None? || p.password.None?
    ensures Passwd(s, p, now, challenge, digest)
            == (s.(challenges := s.challenges - {s.rows[i].username}), Refused("400"))
  {
    SessionIsFound(s.rows, i, now);
  }

  /** After an accepted change a login succeeds with the new password and with no other. */
  lemma NewPasswordCounts(s: State, i: nat, p: PasswdParam, first: string, now: int, digest: Digest,
                          login: LoginParam, answer: LoginParam, w: string, later: int, challenge: string,
                          newToken: string)
    requires Injective(digest) && Core(s.rows) && i < |s.rows| && s.rows[i].username in s.challenges
    requires s.rows[i].token != "" && p.token == Some(s.rows[i].token) && InForce(s.rows[i], now)
    requires p.newPassword.Some? && p.newPassword.value != ""
    requires p.password == Some(digest(digest("passwd" + s.rows[i].password) + s.challenges[s.rows[i].username].text))
    requires login.username == Some(s.rows[i].username) && login.binduser == Some(s.rows[i].binduser)
    requires InForce(s.rows[i], later) && newToken != "" && !TokenInUse(s, newToken)
    requires answer.username == login.username && answer.binduser.Some? && answer.token == Some(newToken)
    requires answer.password == Some(digest(digest("login" + w) + challenge))
    ensures var changed := Passwd(s, p, now, first, digest).0;
            var asked := Login(changed, login, later, challenge, newToken, digest).0;
            Login(asked, answer, later, "", "", digest).1.Accepted? <==> w == p.newPassword.value
  {
    PasswdAnswerExactly(s, i, p, s.rows[i].password, s.challenges[s.rows[i].username].text, now, first, digest);
    var row := s.rows[i].(password := p.newPassword.value, token := "");
    var changed := Passwd(s, p, now, first, digest).0;
    assert changed.rows == s.rows[i := row];
    ReplaceKeepsCore(s.rows, i, row);
    ReplaceRow(s.rows, i, row);
    LoginThenAnswer(changed, i, login, answer, w, later, challenge, newToken, digest);
  }

  /** A login in two steps succeeds exactly with the stored password. */
  lemma LoginThenAnswer(s: State, i: nat, login: LoginParam, answer: LoginParam, w: string, now: int,
                        challenge: string, newToken: string, digest: Digest)
    requires Injective(digest) && Core(s.rows) && i < |s.rows| && s.rows[i].username !in s.challenges
    requires login.username == Some(s.rows[i].username) && login.binduser == Some(s.rows[i].binduser)
    requires InForce(s.rows[i], now) && newToken != "" && forall j :: 0 <= j < |s.rows| ==> s.rows[j].token != newToken
    requires answer.username == login.username && answer.binduser.Some? && answer.token == Some(newToken)
    requires answer.password == Some(digest(digest("login" + w) + challenge))
    ensures var asked := Login(s, login, now, challenge, newToken, digest).0;
            Login(asked, answer, now, "", "", digest).1.Accepted? <==> w == s.rows[i].password
  {
    LoginIssuesExactly(s, i, login, now, challenge, newToken, digest);
    var asked := Login(s, login, now, challenge, newToken, digest).0;
    var row := s.rows[i].(token := newToken, binduser := login.binduser.value);
    ReplaceKeepsCore(s.rows, i, row);
    ReplaceRow(s.rows, i, row);
    LoginAnswerExactly(asked, i, answer, w, challenge, now, "", "", digest);
  }

  /** A logout is accepted while the session is in force, and from then on its token lets nobody in. */
  lemma LogoutEndsSession(s: State, i: nat, now: int, later: int)
    requires Core(s.rows) && i < |s.rows| && s.rows[i].token != ""
    ensures var (s', reply) := Logout(s, Some(s.rows[i].token), now);
            if !InForce(s.rows[i], now) then (s', reply) == (s, Refused("402"))
            else
              && reply == Accepted && s'.rows == s.rows[i := s.rows[i].(token := "", binduser := "")]
              && s'.push == Push("", "") && s'.challenges == s.challenges && s'.pending == s.pending
              && !VerifyUser(s'.rows, s.rows[i].token, later)
  {
    SessionIsFound(s.rows, i, now);
    ReplaceRow(s.rows, i, s.rows[i].(token := "", binduser := ""));
    assert forall j :: 0 <= j < |s.rows| && j != i ==> s.rows[j].token != s.rows[i].token;
  }

  // ---------- who may do what ----------

  /** A token nobody has gets nowhere. */
  lemma StrangerIsRefused(s: State, token: string, now: int, a: AddParam, d: DeleteParam, t: TopUpParam, p: PasswdParam,
                          challenge: string, digest: Digest)
    requires forall i :: 0 <= i < |s.rows| ==> s.rows[i].token != token
    requires a.token == token && d.token == token && t.token == token && p.token == Some(token)
    ensures AddUser(s, Some(a), now) == (s, Refused("402")) && DeleteUser(s, Some(d), now) == (s, Refused("402"))
    ensures TopUp(s, Some(t), now) == (s, Refused("402")) && Logout(s, Some(token), now) == (s, Refused("402"))
    ensures Passwd(s, p, now, challenge, digest) == (s, Refused("402"))
  {
  }

  /** An incomplete request changes nothing either. */
  lemma IncompleteIsRefused(s: State, now: int, newPassword: Option<string>, password: Option<string>,
                            challenge: string, digest: Digest)
    ensures AddUser(s, None, now) == (s, Refused("400")) && DeleteUser(s, None, now) == (s, Refused("400"))
    ensures TopUp(s, None, now) == (s, Refused("400")) && Logout(s, None, now) == (s, Refused("400"))
    ensures Passwd(s, PasswdParam(None, newPassword, password), now, challenge, digest) == (s, Refused("400"))
  {
  }

  /** Nor does a session get anywhere once its account is out of force. */
  lemma ExpiredIsRefused(s: State, i: nat, now: int, a: AddParam, d: DeleteParam, t: TopUpParam)
    requires Core(s.rows) && i < |s.rows| && s.rows[i].token != "" && !InForce(s.rows[i], now)
    requires a.token == s.rows[i].token && d.token == s.rows[i].token && t.token == s.rows[i].token
    ensures AddUser(s, Some(a), now) == (s, Refused("402")) && DeleteUser(s, Some(d), now) == (s, Refused("402"))
    ensures TopUp(s, Some(t), now) == (s, Refused("402"))
  {
    SessionIsFound(s.rows, i, now);
  }

  /** Only an account of level 9 administers: everybody else is refused and changes nothing. */
  lemma NonAdministratorIsRefused(s: State, i: nat, now: int, a: AddParam, d: DeleteParam, t: TopUpParam)
    requires Core(s.rows) && i < |s.rows| && s.rows[i].token != "" && s.rows[i].authority != 9
    requires a.token == s.rows[i].token && d.token == s.rows[i].token && t.token == s.rows[i].token
    ensures AddUser(s, Some(a), now).0 == s && AddUser(s, Some(a), now).1.Refused?
    ensures DeleteUser(s, Some(d), now).0 == s && DeleteUser(s, Some(d), now).1.Refused?
    ensures TopUp(s, Some(t), now).0 == s && TopUp(s, Some(t), now).1.Refused?
  {
    SessionIsFound(s.rows, i, now);
  }

  /** An administrator whose session is in force. */
  predicate Administers(rows: seq<Row>, i: nat, now: int) {
    i < |rows| && rows[i].token != "" && rows[i].authority == 9 && InForce(rows[i], now)
  }

  /** An administrator adds a user of level 7 or 8 under a name nobody has; the new user has no session yet. */
  lemma AdministratorAddsExactly(s: State, i: nat, a: AddParam, now: int)
    requires Core(s.rows) && Administers(s.rows, i, now) && a.token == s.rows[i].token
    ensures var (s', reply) := AddUser(s, Some(a), now);
            if exists j :: 0 <= j < |s.rows| && s.rows[j].username == a.username then (s', reply) == (s, Refused("410"))
            else if !(7 <= a.authority <= 8) then (s', reply) == (s, Refused("412"))
            else
              && reply == Accepted
              && (a.username == "" || a.password == "" ==> s' == s)
              && (a.username != "" && a.password != "" ==>
                    && s' == s.(rows := s'.rows) && |s'.rows| == |s.rows| + 1 && s'.rows[..|s.rows|] == s.rows
                    && var row := s'.rows[|s.rows|];
                    && row.username == a.username && row.password == a.password && row.binduser == a.binduser
                    && row.authority == a.authority && row.validity == a.validity && row.remainOpen == a.remainOpen
                    && row.token == "" && row.lastVerify == 0 && row.lastLogin == 0)
  {
    SessionIsFound(s.rows, i, now);
  }

  /** The added user can log in with the password given, and with no other. */
  lemma AddedUserCanLogIn(s: State, i: nat, a: AddParam, now: int, login: LoginParam, answer: LoginParam, w: string,
                          challenge: string, newToken: string, digest: Digest)
    requires Injective(digest) && Core(s.rows) && Administers(s.rows, i, now) && a.token == s.rows[i].token
    requires AddUser(s, Some(a), now).1.Accepted? && a.username != "" && a.password != "" && a.username !in s.challenges
    requires a.validity >= now && newToken != "" && !TokenInUse(s, newToken)
    requires login.username == Some(a.username) && login.binduser == Some(a.binduser)
    requires answer.username == login.username && answer.binduser.Some? && answer.token == Some(newToken)
    requires answer.password == Some(digest(digest("login" + w) + challenge))
    ensures var added := AddUser(s, Some(a), now).0;
            var asked := Login(added, login, now, challenge, newToken, digest).0;
            Login(asked, answer, now, "", "", digest).1.Accepted? <==> w == a.password
  {
    AdministratorAddsExactly(s, i, a, now);
    AddKeepsCore(s, Some(a), now);
    LoginThenAnswer(AddUser(s, Some(a), now).0, |s.rows|, login, answer, w, now, challenge, newToken, digest);
  }

  /** An administrator deletes exactly the users below level 9; their row goes, and all others stay in order. */
  lemma AdministratorDeletesExactly(s: State, i: nat, j: nat, d: DeleteParam, now: int)
    requires Core(s.rows) && Administers(s.rows, i, now) && d.token == s.rows[i].token
    requires j < |s.rows| && d.username == s.rows[j].username
    ensures DeleteUser(s, Some(d), now)
            == if s.rows[j].authority <= 8 then (s.(rows := s.rows[..j] + s.rows[j + 1..]), Accepted)
               else (s, Refused("412"))
  {
    SessionIsFound(s.rows, i, now);
    ByNameFinds(s.rows, j);
  }

  /** A deleted user is unknown from then on, even in the middle of a login. */
  lemma DeletedUserIsUnknown(s: State, i: nat, j: nat, d: DeleteParam, now: int, p: LoginParam, later: int,
                             challenge: string, newToken: string, digest: Digest)
    requires Core(s.rows) && Administers(s.rows, i, now) && d.token == s.rows[i].token
    requires j < |s.rows| && d.username == s.rows[j].username && s.rows[j].authority <= 8
    requires p.username == Some(d.username) && p.binduser.Some?
    ensures var gone := DeleteUser(s, Some(d), now).0;
            Login(gone, p, later, challenge, newToken, digest) == (gone, Refused("411"))
  {
    AdministratorDeletesExactly(s, i, j, d, now);
    var gone := DeleteUser(s, Some(d), now).0;
    assert forall k :: 0 <= k < |gone.rows| ==> gone.rows[k] == s.rows[if k < j then k else k + 1];
    UnknownLoginIsRefused(gone, p, later, challenge, newToken, digest);
  }

  /** A top-up sets the count, and the validity only if it lies between now and the administrator's own. */
  lemma AdministratorTopsUpExactly(s: State, i: nat, j: nat, t: TopUpParam, now: int)
    requires Core(s.rows) && Administers(s.rows, i, now) && t.token == s.rows[i].token
    requires j < |s.rows| && t.username == s.rows[j].username
    ensures var validity := if now < t.validity < s.rows[i].validity then t.validity else s.rows[j].validity;
            TopUp(s, Some(t), now)
            == (s.(rows := s.rows[j := s.rows[j].(validity := validity, remainOpen := t.remainOpen)]), Accepted)
  {
    SessionIsFound(s.rows, i, now);
    ByNameFinds(s.rows, j);
    var validity := if now < t.validity < s.rows[i].validity then t.validity else s.rows[j].validity;
    ReplaceRow(s.rows, j, s.rows[j].(validity := validity, remainOpen := t.remainOpen));
  }

  /** Nobody can be deleted or topped up who is not there. */
  lemma AbsentUserIsRefused(s: State, i: nat, d: DeleteParam, t: TopUpParam, now: int)
    requires Core(s.rows) && Administers(s.rows, i, now) && d.token == s.rows[i].token && t.token == s.rows[i].token
    requires forall j :: 0 <= j < |s.rows| ==> s.rows[j].username != d.username
    requires t.username == d.username
    ensures DeleteUser(s, Some(d), now) == (s, Refused("411")) && TopUp(s, Some(t), now) == (s, Refused("410"))
  {
    SessionIsFound(s.rows, i, now);
  }
}
