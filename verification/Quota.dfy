/**
 * The opening quota.  The stored count is charged late, by writeCache; here the counter of pending openings
 * is shown to agree with a count that is charged at once, and never to exceed the stored allowance.
 */
module Quota {
  import opened Common
  import opened Users
  import opened UserRuns

  // ---------- pending never exceeds the allowance ----------

  /** For every limited account with a token, the pending openings are covered by the stored count. */
  ghost predicate NoOverdraft(s: State) {
    AllCovered(s, s.rows)
  }

  ghost predicate AllCovered(s: State, rows: seq<Row>) {
    forall i :: 0 <= i < |rows| ==> Covered(s, rows[i])
  }

  predicate Covered(s: State, row: Row) {
    row.remainOpen >= 0 && row.token != "" ==> Pending(s, row.token) <= row.remainOpen
  }

  /** An accepted top-up does not set a limited count below the openings already pending. */
  predicate CoversPending(s: State, step: Step) {
    step.DoTopUp? && TopUp(s, step.topUp, step.now).1.Accepted? ==>
      Covered(s, s.rows[ByName(s.rows, step.topUp.value.username)].(remainOpen := step.topUp.value.remainOpen))
  }

  /** Every row after the step comes from a row before it, or is new; what matters is its token and its count. */
  ghost predicate RowFrom(s: State, row: Row, newToken: string) {
    || row.token == "" || row.token == newToken
    || exists j :: 0 <= j < |s.rows| && s.rows[j].token == row.token && s.rows[j].remainOpen == row.remainOpen
  }

  ghost predicate AllFrom(s: State, rows: seq<Row>, newToken: string) {
    forall k :: 0 <= k < |rows| ==> RowFrom(s, rows[k], newToken)
  }

  lemma SameFrom(s: State, newToken: string)
    ensures AllFrom(s, s.rows, newToken)
  {
  }

  lemma UpdateFrom(s: State, row: Row, newToken: string)
    requires RowFrom(s, row, newToken)
    ensures AllFrom(s, Update(s.rows, row), newToken)
  {
    var rows' := Update(s.rows, row);
    forall k | 0 <= k < |rows'| ensures RowFrom(s, rows'[k], newToken) {
      if rows'[k] != row {
        assert rows'[k] == s.rows[k];
      }
    }
  }

  /** The row that a token leads to, with another password or login time, or without the token. */
  lemma TokenRowFrom(s: State, token: string, row: Row)
    requires ByToken(s.rows, token) < |s.rows|
    requires row.token == token && row.remainOpen == TokenRow(s.rows, token).remainOpen
    ensures RowFrom(s, row, "")
  {
    assert s.rows[ByToken(s.rows, token)].token == token;
  }

  lemma LoginFrom(s: State, p: LoginParam, now: int, challenge: string, newToken: string, digest: Digest)
    ensures AllFrom(s, Login(s, p, now, challenge, newToken, digest).0.rows, newToken)
  {
    SameFrom(s, newToken);
    if p.token.Some? {
      LoginAnswerFrom(s, p.token.value, now, newToken);
    }
    if p.username.Some? && p.binduser.Some? && ByName(s.rows, p.username.value) < |s.rows| {
      LoginIssueFrom(s, ByName(s.rows, p.username.value), p.binduser.value, newToken);
    }
  }

  lemma LoginIssueFrom(s: State, i: nat, binduser: string, newToken: string)
    requires i < |s.rows|
    ensures AllFrom(s, Update(s.rows, s.rows[i].(token := newToken, binduser := binduser)), newToken)
  {
    UpdateFrom(s, s.rows[i].(token := newToken, binduser := binduser), newToken);
  }

  /** The two updates of a second login step; a token that leads nowhere leads to a row without username. */
  lemma LoginAnswerFrom(s: State, token: string, now: int, newToken: string)
    ensures AllFrom(s, Update(s.rows, TokenRow(s.rows, token).(lastVerify := now)), newToken)
    ensures AllFrom(s, Update(s.rows, TokenRow(s.rows, token).(token := "")), newToken)
  {
    var row := TokenRow(s.rows, token);
    UpdateFrom(s, row.(token := ""), newToken);
    if ByToken(s.rows, token) < |s.rows| {
      TokenRowFrom(s, token, row.(lastVerify := now));
      UpdateFrom(s, row.(lastVerify := now), newToken);
    } else {
      SameFrom(s, newToken);
    }
  }

  lemma PasswdFrom(s: State, p: PasswdParam, now: int, challenge: string, digest: Digest)
    ensures AllFrom(s, Passwd(s, p, now, challenge, digest).0.rows, "")
  {
    SameFrom(s, "");
    if p.token.Some? && p.newPassword.Some? {
      UpdateFrom(s, TokenRow(s.rows, p.token.value).(password := p.newPassword.value, token := ""), "");
    }
  }

  lemma LogoutFrom(s: State, session: Option<string>, now: int)
    ensures AllFrom(s, Logout(s, session, now).0.rows, "")
  {
    SameFrom(s, "");
    if session.Some? {
      UpdateFrom(s, TokenRow(s.rows, session.value).(token := "", binduser := ""), "");
    }
  }

  lemma AddFrom(s: State, p: Option<AddParam>, now: int)
    ensures AllFrom(s, AddUser(s, p, now).0.rows, "")
  {
    var rows' := AddUser(s, p, now).0.rows;
    forall k | 0 <= k < |rows'| ensures RowFrom(s, rows'[k], "") {
      if k < |s.rows| {
        assert rows'[k] == s.rows[k];
      }
    }
  }

  lemma DeleteFrom(s: State, p: Option<DeleteParam>, now: int)
    ensures AllFrom(s, DeleteUser(s, p, now).0.rows, "")
  {
    SameFrom(s, "");
    if DeleteUser(s, p, now).1.Accepted? {
      WithoutFrom(s, ByName(s.rows, p.value.username));
    }
  }

  lemma WithoutFrom(s: State, i: nat)
    requires i < |s.rows|
    ensures AllFrom(s, Without(s.rows, i), "")
  {
    var rows' := Without(s.rows, i);
    forall k | 0 <= k < |rows'| ensures RowFrom(s, rows'[k], "") {
      assert rows'[k] == s.rows[if k < i then k else k + 1];
    }
  }

  /** The operations that set neither a stored count nor a pending one. */
  predicate CountsNothing(step: Step) {
    step.DoLogin? || step.DoPasswd? || step.DoLogout? || step.DoAdd? || step.DoDelete?
  }

  function TokenGiven(step: Step): string {
    if step.DoLogin? then step.newToken else ""
  }

  lemma NextFrom(s: State, step: Step, digest: Digest)
    requires CountsNothing(step)
    ensures AllFrom(s, Next(s, step, digest).rows, TokenGiven(step))
  {
    match step
    case DoLogin(p, now, challenge, newToken) => LoginFrom(s, p, now, challenge, newToken, digest);
    case DoPasswd(p, now, challenge) => PasswdFrom(s, p, now, challenge, digest);
    case DoLogout(session, now) => LogoutFrom(s, session, now);
    case DoAdd(p, now) => AddFrom(s, p, now);
    case DoDelete(p, now) => DeleteFrom(s, p, now);
  }

  lemma PendingUntouched(s: State, step: Step, digest: Digest)
    requires CountsNothing(step) || step.DoTopUp?
    ensures Next(s, step, digest).pending == s.pending
  {
  }

  lemma CoveredByOrigin(s: State, rows: seq<Row>, newToken: string)
    requires NoOverdraft(s) && AllFrom(s, rows, newToken) && (newToken != "" ==> newToken !in s.pending)
    ensures AllCovered(s, rows)
  {
    forall i | 0 <= i < |rows| && rows[i].token != "" && rows[i].token != newToken ensures Covered(s, rows[i]) {
      assert RowFrom(s, rows[i], newToken);
      var j :| 0 <= j < |s.rows| && s.rows[j].token == rows[i].token && s.rows[j].remainOpen == rows[i].remainOpen;
      assert Covered(s, s.rows[j]);
    }
  }

  /** What is covered depends on the pending openings alone. */
  lemma CoveredAlike(s: State, s': State)
    requires s'.pending == s.pending
    ensures AllCovered(s, s'.rows) <==> NoOverdraft(s')
  {
    assert forall row :: Covered(s, row) == Covered(s', row);
  }

  lemma CountingNothingKeepsNoOverdraft(s: State, step: Step, digest: Digest)
    requires CountsNothing(step) && NoOverdraft(s) && Fair(s, step)
    ensures NoOverdraft(Next(s, step, digest))
  {
    NextFrom(s, step, digest);
    PendingUntouched(s, step, digest);
    CoveredByOrigin(s, Next(s, step, digest).rows, TokenGiven(step));
    CoveredAlike(s, Next(s, step, digest));
  }

  /** The rows after an accepted top-up: one count, and perhaps its validity, is set. */
  lemma TopUpRows(s: State, p: Option<TopUpParam>, now: int) returns (i: nat, row: Row)
    requires Core(s.rows) && TopUp(s, p, now).1.Accepted?
    ensures i == ByName(s.rows, p.value.username) && i < |s.rows|
    ensures row == s.rows[i].(validity := row.validity, remainOpen := p.value.remainOpen)
    ensures TopUp(s, p, now).0 == s.(rows := s.rows[i := row])
  {
    i := ByName(s.rows, p.value.username);
    var admin := TokenRow(s.rows, p.value.token);
    var validity := if now < p.value.validity < admin.validity then p.value.validity else s.rows[i].validity;
    row := s.rows[i].(validity := validity, remainOpen := p.value.remainOpen);
    ReplaceKeepsCore(s.rows, i, row);
  }

  lemma TopUpKeepsNoOverdraftExactly(s: State, step: Step, digest: Digest)
    requires step.DoTopUp? && Core(s.rows) && NoOverdraft(s)
    ensures NoOverdraft(Next(s, step, digest)) <==> CoversPending(s, step)
  {
    if TopUp(s, step.topUp, step.now).1.Accepted? {
      var i, row := TopUpRows(s, step.topUp, step.now);
      CoveredAlike(s, s.(rows := s.rows[i := row]));
      assert s.rows[i := row][i] == row;
    }
  }

  /** A flush keeps the sign of every count, if its account has a token or nothing is pending under the empty one. */
  lemma FlushKeepsLimits(s: State)
    requires NoOverdraft(s) && TokensDiffer(s.rows)
    ensures forall i :: 0 <= i < |s.rows| && (s.rows[i].token != "" || "" !in s.pending)
                        ==> (WriteCache(s).rows[i].remainOpen < 0 <==> s.rows[i].remainOpen < 0)
    ensures NoOverdraft(WriteCache(s))
  {
    forall i | 0 <= i < |s.rows|
      ensures Covered(s, s.rows[i]) && Covered(WriteCache(s), WriteCache(s).rows[i])
    {
      assert Covered(s, s.rows[i]);
    }
  }

  lemma OpenKeepsNoOverdraft(s: State, token: string)
    requires NoOverdraft(s) && TokensDiffer(s.rows) && CanOpen(s, token)
    ensures NoOverdraft(CountOpening(s, token))
  {
    forall i | 0 <= i < |s.rows| ensures Covered(CountOpening(s, token), s.rows[i]) {
      assert Covered(s, s.rows[i]);
      if s.rows[i].token == token && token != "" {
        TokenFinds(s.rows, i);
      }
    }
  }

  /** One step keeps the pending openings within the allowance exactly if it is no top-up below them. */
  lemma NextKeepsNoOverdraft(s: State, step: Step, digest: Digest)
    requires Core(s.rows) && NoOverdraft(s) && Fair(s, step)
    ensures NoOverdraft(Next(s, step, digest)) <==> CoversPending(s, step)
  {
    match step
    case DoTopUp(_, _) => TopUpKeepsNoOverdraftExactly(s, step, digest);
    case Flush => FlushKeepsLimits(s);
    case Timer(_) => FlushKeepsLimits(s);
    case Open(token) => OpenKeepsNoOverdraft(s, token);
    case _ => CountingNothingKeepsNoOverdraft(s, step, digest);
  }

  /**
   * In every run whose accepted top-ups cover the pending openings, pending never exceeds a limited
   * allowance, whatever is opened under the empty token.
   */
  lemma {:induction false} EveryRunKeepsNoOverdraft(states: seq<State>, steps: seq<Step>, digest: Digest, n: nat)
    requires IsRun(states, steps, digest) && n < |states| && Core(states[0].rows) && NoOverdraft(states[0])
    requires forall i {:trigger CoversPending(states[i], steps[i])} :: 0 <= i < n ==> CoversPending(states[i], steps[i])
    ensures NoOverdraft(states[n])
  {
    if n > 0 {
      EveryRunKeepsNoOverdraft(states, steps, digest, n - 1);
      EveryRunKeepsTokensAndAdmins(states, steps, digest, n - 1);
      assert CoversPending(states[n - 1], steps[n - 1]);
      NextKeepsNoOverdraft(states[n - 1], steps[n - 1], digest);
    }
  }

  /**
   * So no flush in such a run ever turns a limited account that has a token into an unlimited one; and if no
   * opening was counted under the empty token, none at all.
   */
  lemma NoFlushUnlimits(states: seq<State>, steps: seq<Step>, digest: Digest, n: nat)
    requires IsRun(states, steps, digest) && n < |states| && Core(states[0].rows) && NoOverdraft(states[0])
    requires forall i {:trigger CoversPending(states[i], steps[i])} :: 0 <= i < n ==> CoversPending(states[i], steps[i])
    ensures forall i :: 0 <= i < |states[n].rows| && states[n].rows[i].token != ""
                        ==> (WriteCache(states[n]).rows[i].remainOpen < 0 <==> states[n].rows[i].remainOpen < 0)
    ensures "" !in states[0].pending && (forall i :: 0 <= i < n ==> steps[i] != Open(""))
            ==> forall i :: 0 <= i < |states[n].rows|
                            ==> (WriteCache(states[n]).rows[i].remainOpen < 0 <==> states[n].rows[i].remainOpen < 0)
  {
    EveryRunKeepsNoOverdraft(states, steps, digest, n);
    EveryRunKeepsTokensAndAdmins(states, steps, digest, n);
    FlushKeepsLimits(states[n]);
    if "" !in states[0].pending && forall i :: 0 <= i < n ==> steps[i] != Open("") {
      NothingUnderEmptyToken(states, steps, digest, n);
    }
  }

  lemma {:induction false} NothingUnderEmptyToken(states: seq<State>, steps: seq<Step>, digest: Digest, n: nat)
    requires IsRun(states, steps, digest) && n < |states| && "" !in states[0].pending
    requires forall i :: 0 <= i < n ==> steps[i] != Open("")
    ensures "" !in states[n].pending
  {
    if n > 0 {
      NothingUnderEmptyToken(states, steps, digest, n - 1);
      NextAddsToken(states[n - 1], steps[n - 1], digest);
    }
  }

  lemma NextAddsToken(s: State, step: Step, digest: Digest)
    ensures forall token :: token in Next(s, step, digest).pending ==> token in s.pending || step == Open(token)
  {
    if CountsNothing(step) || step.DoTopUp? {
      PendingUntouched(s, step, digest);
    }
  }

  // ---------- exactly when a flush makes an account unlimited ----------

  /**
   * Whatever the tokens: a flush makes account i unlimited exactly if its token leads to it and more openings
   * are pending under that token than a positive count covers.
   */
  lemma FlushUnlimitsExactly(s: State, i: nat)
    requires i < |s.rows| && s.rows[i].remainOpen >= 0
    ensures WriteCache(s).rows[i].remainOpen < 0
            <==> ByToken(s.rows, s.rows[i].token) == i && 0 < s.rows[i].remainOpen < Pending(s, s.rows[i].token)
  {
  }

  /**
   * After an accepted top-up to a limited count, a flush makes that account unlimited exactly if its token leads
   * to it and the count is positive but below the openings pending.
   */
  lemma TopUpUnlimitsExactly(s: State, p: Option<TopUpParam>, now: int)
    requires Core(s.rows) && TopUp(s, p, now).1.Accepted? && p.value.remainOpen >= 0
    ensures var i := ByName(s.rows, p.value.username);
            WriteCache(TopUp(s, p, now).0).rows[i].remainOpen < 0
            <==> ByToken(s.rows, s.rows[i].token) == i && 0 < p.value.remainOpen < Pending(s, s.rows[i].token)
  {
    var i, row := TopUpRows(s, p, now);
    FlushUnlimitsExactly(TopUp(s, p, now).0, i);
    SameTokensFind(s.rows, s.rows[i := row], s.rows[i].token);
  }

  lemma SameTokensFind(a: seq<Row>, b: seq<Row>, token: string)
    requires |a| == |b| && forall i :: 0 <= i < |a| ==> a[i].token == b[i].token
    ensures ByToken(a, token) == ByToken(b, token)
  {
  }

  /**
   * No top-up is needed: two accounts without a token, the second allowed five openings and the first one.
   * Two openings under the empty token are admitted on the second account's count; once that account logs in,
   * the flush charges both to the first, which becomes unlimited.
   */
  lemma EmptyTokenUnlimits(first: Row, second: Row, binduser: string, now: int, token: string, challenge: string,
                           push: Push, digest: Digest)
    returns (states: seq<State>)
    requires Core([first, second]) && first.token == "" && second.token == "" && token != ""
    requires first.remainOpen == 1 && second.remainOpen == 5
    requires Valid(second, now) && !BoundElsewhere(second, binduser)
    ensures var start := State([first, second], map[], map[], push);
            var login := LoginParam(Some(second.username), Some(binduser), None, None, None, None);
            var steps := [Open(""), Open(""), DoLogin(login, now, challenge, token), Flush];
            && VerifyUser(start.rows, "", now) && NoOverdraft(start)
            && IsRun(states, steps, digest) && states[0] == start
            && (forall i :: 0 <= i < 4 ==> CoversPending(states[i], steps[i]))
            && |states[4].rows| == 2 && states[4].rows[0].remainOpen == -1
  {
    var start := State([first, second], map[], map[], push);
    var login := LoginParam(Some(second.username), Some(binduser), None, None, None, None);
    var once := CountOpening(start, "");
    var twice := CountOpening(once, "");
    assert ByToken([first, second], "") == 1;
    var after := Login(twice, login, now, challenge, token, digest).0;
    LoginGivesToken(twice, 1, login, now, challenge, token, digest);
    var second' := second.(token := token, binduser := binduser);
    assert after.rows == [first, second'];
    LastTokenOf(first, second', "");
    FlushUnlimitsExactly(after, 0);
    states := [start, once, twice, after, WriteCache(after)];
  }

  /** The first step of a login gives its row the new token. */
  lemma LoginGivesToken(s: State, i: nat, p: LoginParam, now: int, challenge: string, token: string, digest: Digest)
    requires Core(s.rows) && i < |s.rows| && s.rows[i].username !in s.challenges && Valid(s.rows[i], now)
    requires p.username == Some(s.rows[i].username) && p.binduser.Some? && !BoundElsewhere(s.rows[i], p.binduser.value)
    ensures Login(s, p, now, challenge, token, digest).0.rows
            == s.rows[i := s.rows[i].(token := token, binduser := p.binduser.value)]
  {
    ByNameFinds(s.rows, i);
    ByNameFinds(s.rows[i := s.rows[i].(token := token, binduser := p.binduser.value)], i);
  }

  lemma LastTokenOf(first: Row, second: Row, token: string)
    requires first.token == token && second.token != token
    ensures ByToken([first, second], token) == 0
  {
    assert [first, second][..1] == [first];
  }

  // ---------- the counter agrees with an eager one ----------

  /** What is left for the account of a token: the stored count less the pending openings, or the unlimited mark. */
  function Remaining(s: State, token: string): int {
    var stored := TokenRow(s.rows, token).remainOpen;
    if stored < 0 then stored else stored - Pending(s, token)
  }

  predicate EagerCanOpen(count: int) {
    count != 0
  }

  /** An eager count loses one at each opening, unless it is the unlimited mark. */
  function EagerStep(count: int, step: Step, token: string): int {
    if step == Open(token) && count > 0 then count - 1 else count
  }

  function EagerRun(count: int, steps: seq<Step>, token: string): int {
    if steps == [] then count
    else EagerStep(EagerRun(count, steps[..|steps| - 1], token), steps[|steps| - 1], token)
  }

  /** The answers agree exactly as long as the account is not overdrawn. */
  lemma AnswersAgreeExactly(s: State, token: string)
    ensures CanOpen(s, token) == EagerCanOpen(Remaining(s, token))
            <==> !(TokenRow(s.rows, token).remainOpen >= 0 && Pending(s, token) > TokenRow(s.rows, token).remainOpen)
  {
  }

  /** The token stands: it is the owner's. */
  predicate Stands(s: State, owner: string, token: string) {
    token != "" && ByToken(s.rows, token) < |s.rows| && TokenRow(s.rows, token).username == owner
  }

  /** An accepted top-up of the owner. */
  predicate TopsUp(s: State, step: Step, owner: string) {
    && step.DoTopUp? && step.topUp.Some? && step.topUp.value.username == owner
    && TopUp(s, step.topUp, step.now).1.Accepted?
  }

  /** The account of a standing token, not overdrawn. */
  predicate Account(s: State, owner: string, token: string) {
    Stands(s, owner, token) && Covered(s, TokenRow(s.rows, token))
  }

  lemma OtherTokenOtherUser(rows: seq<Row>, token: string, other: string)
    requires Core(rows) && other != token && ByToken(rows, token) < |rows|
    ensures TokenRow(rows, other).username != TokenRow(rows, token).username
  {
    var k := ByToken(rows, token);
    var j := ByToken(rows, other);
    assert rows[k].token == token;
  }

  /** A token that stands before and after leads to the same count, if all rows come from rows before. */
  lemma CountByOrigin(s: State, rows: seq<Row>, newToken: string, token: string)
    requires TokensDiffer(s.rows) && AllFrom(s, rows, newToken)
    requires token != "" && token != newToken && ByToken(rows, token) < |rows|
    ensures TokenRow(rows, token).remainOpen == TokenRow(s.rows, token).remainOpen
  {
    assert RowFrom(s, rows[ByToken(rows, token)], newToken);
    var j :| 0 <= j < |s.rows| && s.rows[j].token == token && s.rows[j].remainOpen == TokenRow(rows, token).remainOpen;
    TokenFinds(s.rows, j);
  }

  lemma TopUpKeepsCount(s: State, p: Option<TopUpParam>, now: int, owner: string, token: string)
    requires Core(s.rows) && Stands(s, owner, token) && TopUp(s, p, now).1.Accepted? && p.value.username != owner
    ensures TokenRow(TopUp(s, p, now).0.rows, token) == TokenRow(s.rows, token)
  {
    var i, row := TopUpRows(s, p, now);
    SameTokensFind(s.rows, s.rows[i := row], token);
  }

  /** Flushing leaves the remaining count of every account that is not overdrawn unchanged. */
  lemma FlushKeepsRemaining(s: State, owner: string, token: string)
    requires Core(s.rows) && Account(s, owner, token)
    ensures Account(WriteCache(s), owner, token) && Remaining(WriteCache(s), token) == Remaining(s, token)
  {
    var k := ByToken(s.rows, token);
    ChargedKeepsCore(s.rows, s.pending);
    TokenFinds(WriteCache(s).rows, k);
  }

  /** After a flush or timer pass nothing is pending, and the stored count of a limited account is what remained. */
  lemma FlushStoresRemaining(s: State, owner: string, token: string, now: int)
    requires Core(s.rows) && Account(s, owner, token) && TokenRow(s.rows, token).remainOpen >= 0
    ensures WriteCache(s).pending == map[] && TimerPass(s, now).pending == map[]
    ensures TokenRow(WriteCache(s).rows, token).remainOpen == Remaining(s, token)
    ensures TokenRow(TimerPass(s, now).rows, token).remainOpen == Remaining(s, token)
  {
    FlushKeepsRemaining(s, owner, token);
  }

  /** A step that is no flush, opening or top-up of the owner keeps the account's count, as long as its token stands. */
  lemma SparingStepKeepsRemaining(s: State, step: Step, digest: Digest, owner: string, token: string)
    requires CountsNothing(step) || step.DoTopUp?
    requires Core(s.rows) && Fair(s, step) && Account(s, owner, token)
    requires Stands(Next(s, step, digest), owner, token) && !TopsUp(s, step, owner)
    ensures Account(Next(s, step, digest), owner, token)
    ensures Remaining(Next(s, step, digest), token) == Remaining(s, token)
  {
    PendingUntouched(s, step, digest);
    if step.DoTopUp? {
      if TopUp(s, step.topUp, step.now).1.Accepted? {
        TopUpKeepsCount(s, step.topUp, step.now, owner, token);
      }
    } else {
      NextFrom(s, step, digest);
      assert token != TokenGiven(step) by {
        assert s.rows[ByToken(s.rows, token)].token == token;
      }
      CountByOrigin(s, Next(s, step, digest).rows, TokenGiven(step), token);
    }
  }

  /** An opening of some account moves its own remaining count by one and no other. */
  lemma OpenMatchesEager(s: State, other: string, owner: string, token: string)
    requires Account(s, owner, token) && CanOpen(s, other)
    ensures Account(CountOpening(s, other), owner, token)
    ensures Remaining(CountOpening(s, other), token) == EagerStep(Remaining(s, token), Open(other), token)
  {
  }

  /** One step moves the remaining count exactly as the eager count. */
  lemma NextMatchesEager(s: State, step: Step, digest: Digest, owner: string, token: string)
    requires Core(s.rows) && Fair(s, step) && Account(s, owner, token)
    requires Stands(Next(s, step, digest), owner, token) && !TopsUp(s, step, owner)
    ensures Account(Next(s, step, digest), owner, token)
    ensures Remaining(Next(s, step, digest), token) == EagerStep(Remaining(s, token), step, token)
  {
    match step
    case Flush => FlushKeepsRemaining(s, owner, token);
    case Timer(_) => FlushKeepsRemaining(s, owner, token);
    case Open(other) => OpenMatchesEager(s, other, owner, token);
    case _ => SparingStepKeepsRemaining(s, step, digest, owner, token);
  }

  /** Up to state n the token stands and no top-up of its owner is accepted. */
  ghost predicate Undisturbed(states: seq<State>, steps: seq<Step>, n: nat, owner: string, token: string)
    requires n < |states| && n <= |steps|
  {
    && (forall i {:trigger Stands(states[i], owner, token)} :: 0 <= i <= n ==> Stands(states[i], owner, token))
    && (forall i {:trigger TopsUp(states[i], steps[i], owner)} :: 0 <= i < n ==> !TopsUp(states[i], steps[i], owner))
  }

  lemma {:induction false} RemainingIsEager(states: seq<State>, steps: seq<Step>, digest: Digest, n: nat,
                                            owner: string, token: string)
    requires IsRun(states, steps, digest) && n < |states| && Core(states[0].rows) && Account(states[0], owner, token)
    requires Undisturbed(states, steps, n, owner, token)
    ensures Account(states[n], owner, token)
    ensures Remaining(states[n], token) == EagerRun(Remaining(states[0], token), steps[..n], token)
  {
    if n > 0 {
      RemainingIsEager(states, steps, digest, n - 1, owner, token);
      EveryRunKeepsTokensAndAdmins(states, steps, digest, n - 1);
      assert Stands(states[n], owner, token) && !TopsUp(states[n - 1], steps[n - 1], owner);
      NextMatchesEager(states[n - 1], steps[n - 1], digest, owner, token);
      assert steps[..n][..n - 1] == steps[..n - 1];
    }
  }

  /**
   * The write-behind counter refines the eager one: as long as the token stands and no top-up of its owner is
   * accepted, whatever else the owner, other users, flushes and timers do, each canUserOpenDoor answer is the
   * eager answer.
   */
  lemma EveryAnswerIsEager(states: seq<State>, steps: seq<Step>, digest: Digest, n: nat, owner: string, token: string)
    requires IsRun(states, steps, digest) && n < |states| && Core(states[0].rows) && Account(states[0], owner, token)
    requires Undisturbed(states, steps, n, owner, token)
    ensures CanOpen(states[n], token) == EagerCanOpen(EagerRun(Remaining(states[0], token), steps[..n], token))
  {
    RemainingIsEager(states, steps, digest, n, owner, token);
    AnswersAgreeExactly(states[n], token);
  }

  /**
   * A login's new token keeps the remaining count of a limited account exactly when nothing was pending under
   * the old one.
   */
  lemma TokenChangeDiscardsPending(s: State, p: LoginParam, now: int, challenge: string, newToken: string,
                                   digest: Digest)
    requires Core(s.rows) && newToken != "" && !TokenInUse(s, newToken)
    requires Login(s, p, now, challenge, newToken, digest).1.Issued?
    ensures var row := s.rows[ByName(s.rows, p.username.value)];
            row.token != "" && row.remainOpen >= 0 ==>
              (Remaining(Login(s, p, now, challenge, newToken, digest).0, newToken) == Remaining(s, row.token)
               <==> Pending(s, row.token) == 0)
  {
    var i := ByName(s.rows, p.username.value);
    var row := s.rows[i].(token := newToken, binduser := p.binduser.value);
    ReplaceKeepsCore(s.rows, i, row);
    TokenFinds(Update(s.rows, row), i);
    if s.rows[i].token != "" {
      TokenFinds(s.rows, i);
    }
  }
}
