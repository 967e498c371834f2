/** What holds in every run of the dipped-card machine. */
module DippedAuthRuns {
  import opened Wrappers
  import opened Auth
  import opened DippedAuth

  /** The status after the first `n` events of a run from the initial status. */
  function At(cfg: Config, es: seq<Event>, n: nat): AuthStatus
    requires n <= |es|
  {
    Run(cfg, SIGNED_OUT, es[..n])
  }

  lemma AtStep(cfg: Config, es: seq<Event>, n: nat)
    requires n < |es|
    ensures At(cfg, es, n + 1) == Determine(cfg, es[n].ms, At(cfg, es, n), es[n].action, es[n].now)
    ensures At(cfg, es, 0) == SIGNED_OUT
  {
    assert es[..n + 1][..n] == es[..n];
    assert es[..0] == [];
  }

  /** A card the machine accepts. */
  predicate Eligible(cfg: Config, ms: MachineState, user: User) {
    && (ms.jurisdiction !in {None, Some("")} ==> JurisdictionOf(user) == ms.jurisdiction)
    && (user.SystemAdministrator? || user.ElectionManager?)
    && (user.ElectionManager? ==>
          if ms.electionHash !in {None, Some("")} then ms.electionHash == Some(user.electionHash)
          else cfg.allowElectionManagersToAccessUnconfiguredMachines)
  }

  // ---- the three stages of a login

  /** At `i` an eligible card of `user` is read while signed out or expired. */
  predicate CardRead(cfg: Config, es: seq<Event>, i: nat, user: User)
    requires i < |es|
  {
    && es[i].action.CheckCardReader? && es[i].action.cardStatus.Ready?
    && es[i].action.cardStatus.cardDetails.Some?
    && es[i].action.cardStatus.cardDetails.value.user == user
    && Eligible(cfg, es[i].ms, user)
    && Current(At(cfg, es, i), es[i].now).LoggedOut?
  }

  ghost predicate CheckingFrom(cfg: Config, es: seq<Event>, i: nat, n: nat, user: User)
    requires n <= |es|
  {
    && i < n && CardRead(cfg, es, i, user)
    && forall m :: i < m <= n ==> At(cfg, es, m).CheckingPin? && At(cfg, es, m).user == user
  }

  /** At `j`, still checking that PIN, the correct one is accepted. */
  ghost predicate RemovingFrom(cfg: Config, es: seq<Event>, i: nat, j: nat, n: nat, user: User)
    requires n <= |es|
  {
    && i < j < n && CheckingFrom(cfg, es, i, j, user)
    && es[j].action == CheckPinAction(Correct)
    && forall m :: j < m <= n ==> At(cfg, es, m).RemoveCard? && At(cfg, es, m).user == user
  }

  /** At `k`, with nothing but polls and the like in between, the reader is empty. */
  ghost predicate LoggedInFrom(cfg: Config, es: seq<Event>, i: nat, j: nat, k: nat, n: nat, user: User)
    requires n <= |es|
  {
    && j < k < n && RemovingFrom(cfg, es, i, j, k, user)
    && es[k].action == CheckCardReader(NoCard)
    && forall m :: k < m <= n ==> At(cfg, es, m).LoggedIn? && At(cfg, es, m).user == user
  }

  lemma {:induction false} CheckingNeedsCard(cfg: Config, es: seq<Event>, n: nat) returns (i: nat)
    requires !cfg.skipPinEntry && n <= |es| && At(cfg, es, n).CheckingPin?
    ensures CheckingFrom(cfg, es, i, n, At(cfg, es, n).user)
  {
    assert es[..0] == [];
    if n > 0 {
      AtStep(cfg, es, n - 1);
      if At(cfg, es, n - 1).CheckingPin? {
        i := CheckingNeedsCard(cfg, es, n - 1);
      } else {
        i := n - 1;
      }
    }
  }

  lemma {:induction false} RemovingNeedsPin(cfg: Config, es: seq<Event>, n: nat) returns (i: nat, j: nat)
    requires !cfg.skipPinEntry && n <= |es| && At(cfg, es, n).RemoveCard?
    ensures RemovingFrom(cfg, es, i, j, n, At(cfg, es, n).user)
  {
    assert es[..0] == [];
    if n > 0 {
      AtStep(cfg, es, n - 1);
      if At(cfg, es, n - 1).RemoveCard? {
        i, j := RemovingNeedsPin(cfg, es, n - 1);
      } else {
        j := n - 1;
        i := CheckingNeedsCard(cfg, es, n - 1);
      }
    }
  }

  /**
   Whoever is logged in went through all three stages, in order, as the same user, and did
   not log out in between.
   */
  lemma {:induction false} LoginNeedsAllStages(cfg: Config, es: seq<Event>, n: nat) returns (i: nat, j: nat, k: nat)
    requires !cfg.skipPinEntry && n <= |es| && At(cfg, es, n).LoggedIn?
    ensures LoggedInFrom(cfg, es, i, j, k, n, At(cfg, es, n).user)
    ensures forall m :: i <= m < n ==> es[m].action != LogOutAction
  {
    assert es[..0] == [];
    if n > 0 {
      AtStep(cfg, es, n - 1);
      if At(cfg, es, n - 1).LoggedIn? {
        i, j, k := LoginNeedsAllStages(cfg, es, n - 1);
      } else {
        k := n - 1;
        i, j := RemovingNeedsPin(cfg, es, n - 1);
      }
      forall m | i <= m < n
        ensures es[m].action != LogOutAction
      {
        AtStep(cfg, es, m);
        assert !At(cfg, es, m + 1).LoggedOut?;
      }
    }
  }

  // ---- what a PIN prompt and a session show

  predicate Answers(es: seq<Event>, k: nat, response: PinResponse)
    requires k < |es|
  {
    es[k].action == CheckPinAction(response)
  }

  predicate AnswersWrong(es: seq<Event>, k: nat)
    requires k < |es|
  {
    es[k].action.CheckPinAction? && es[k].action.response.Incorrect?
  }

  /** The prompt began with the card read at `j`, locked by the attempts the card reported. */
  predicate PromptedByCard(cfg: Config, es: seq<Event>, j: nat, auth: AuthStatus)
    requires j < |es| && auth.CheckingPin?
  {
    && CardRead(cfg, es, j, auth.user) && auth.wrongPinEnteredAt == None
    && auth.lockedOutUntil
       == LockoutEndTime(es[j].ms, es[j].action.cardStatus.cardDetails.value.numIncorrectPinAttempts, es[j].now)
  }

  /** The prompt repeats after the wrong PIN at `j`, locked by the attempts the card answered with. */
  predicate PromptedByWrongPin(cfg: Config, es: seq<Event>, j: nat, auth: AuthStatus)
    requires j < |es| && auth.CheckingPin?
  {
    && At(cfg, es, j).CheckingPin? && AnswersWrong(es, j)
    && auth.wrongPinEnteredAt == Some(es[j].now)
    && auth.lockedOutUntil == LockoutEndTime(es[j].ms, Some(es[j].action.response.numIncorrectPinAttempts), es[j].now)
  }

  /**
   A PIN prompt shows the lockout and the time of the last wrong PIN, or the lockout the card was
   read with if there was none, and an error exactly when a check has failed since.
   */
  lemma {:induction false} PromptExplained(cfg: Config, es: seq<Event>, n: nat) returns (j: nat)
    requires n <= |es| && At(cfg, es, n).CheckingPin?
    ensures j < n && forall k :: j < k <= n ==> At(cfg, es, k).CheckingPin? && At(cfg, es, k).user == At(cfg, es, n).user
    ensures PromptedByCard(cfg, es, j, At(cfg, es, n)) || PromptedByWrongPin(cfg, es, j, At(cfg, es, n))
    ensures forall k :: j < k < n ==> !AnswersWrong(es, k)
    ensures At(cfg, es, n).error <==> exists k :: j < k < n && Answers(es, k, PinError)
  {
    hide LockoutEndTime;
    assert es[..0] == [];
    if n > 0 {
      AtStep(cfg, es, n - 1);
      if At(cfg, es, n - 1).CheckingPin? && !AnswersWrong(es, n - 1) {
        j := PromptExplained(cfg, es, n - 1);
        if Answers(es, n - 1, PinError) {
          assert j < n - 1 < n;
        } else if exists k :: j < k < n && Answers(es, k, PinError) {
          var k :| j < k < n && Answers(es, k, PinError);
          assert k < n - 1;
        }
      } else {
        j := n - 1;
      }
    }
  }

  predicate InSession(auth: AuthStatus) {
    auth.RemoveCard? || auth.LoggedIn?
  }

  predicate SetsExpiry(es: seq<Event>, k: nat)
    requires k < |es|
  {
    es[k].action.UpdateSessionExpiryAction?
  }

  /** A session ends when the last expiry update since it began says, or else a session's length after the PIN. */
  lemma {:induction false} SessionExplained(cfg: Config, es: seq<Event>, n: nat) returns (j: nat)
    requires n <= |es| && InSession(At(cfg, es, n))
    ensures j < n && forall k :: j < k <= n ==> InSession(At(cfg, es, k)) && At(cfg, es, k).user == At(cfg, es, n).user
    ensures forall k :: j < k < n ==> !SetsExpiry(es, k)
    ensures var expiry, before := At(cfg, es, n).sessionExpiresAt, Current(At(cfg, es, j), es[j].now);
            if SetsExpiry(es, j) then InSession(before) && expiry == es[j].action.sessionExpiresAt
            else !InSession(before) && expiry == SessionEndTime(es[j].ms, es[j].now)
  {
    hide LockoutEndTime, ValidateCard, SessionEndTime, ToProgrammableCard;
    assert es[..0] == [];
    if n > 0 {
      AtStep(cfg, es, n - 1);
      if SetsExpiry(es, n - 1) || !InSession(Current(At(cfg, es, n - 1), es[n - 1].now)) {
        j := n - 1;
      } else {
        j := SessionExplained(cfg, es, n - 1);
      }
    }
  }

  // ---- signed out

  predicate OfJurisdiction(ms: MachineState, user: User) {
    ms.jurisdiction !in {None, Some("")} ==> JurisdictionOf(user) == ms.jurisdiction
  }

  /** What a poll makes of a machine that nobody is using: the prompt for an eligible card, or why there is none. */
  lemma PollReason(cfg: Config, es: seq<Event>, n: nat)
    requires n < |es| && es[n].action.CheckCardReader? && Current(At(cfg, es, n), es[n].now).LoggedOut?
    ensures var after, ms, cardStatus := At(cfg, es, n + 1), es[n].ms, es[n].action.cardStatus;
            && (!after.LoggedOut? <==>
                  cardStatus.Ready? && cardStatus.cardDetails.Some? && Eligible(cfg, ms, cardStatus.cardDetails.value.user))
            && (after.LoggedOut? ==>
                  && (after.reason == MachineLocked <==> cardStatus.NoCard? || cardStatus.UnknownError?)
                  && (after.reason == CardErrorReason <==> cardStatus.CardError?)
                  && after.cardUserRole == (if cardStatus.Ready? && cardStatus.cardDetails.Some?
                                            then Some(RoleOf(cardStatus.cardDetails.value.user)) else None)
                  && (cardStatus.Ready? ==>
                        var details := cardStatus.cardDetails;
                        && (after.reason == InvalidUserOnCard <==> details.None? || !OfJurisdiction(ms, details.value.user))
                        && (details.Some? && OfJurisdiction(ms, details.value.user) ==>
                              var user := details.value.user;
                              && (after.reason == UserRoleNotAllowed <==> user.PollWorker? || user.RaveVoter?)
                              && (after.reason == MachineNotConfigured <==> user.ElectionManager? && ms.electionHash in {None, Some("")})
                              && (after.reason == ElectionManagerWrongElection <==>
                                    user.ElectionManager? && ms.electionHash !in {None, Some("")}))))
  {
    AtStep(cfg, es, n);
  }

  // ---- sessions end

  /**
   An update leaves someone logged in past the session's end exactly when it sets that end
   itself, or takes the card's removal as the login of a session that ran out while the card
   was still in the reader.
   */
  lemma PastExpiryExactly(cfg: Config, es: seq<Event>, n: nat)
    requires n < |es|
    ensures var before, after, now := At(cfg, es, n), At(cfg, es, n + 1), es[n].now;
            after.LoggedIn? && now >= after.sessionExpiresAt <==>
              || (before.LoggedIn? && now < before.sessionExpiresAt && es[n].action.UpdateSessionExpiryAction?
                  && now >= es[n].action.sessionExpiresAt)
              || (before.RemoveCard? && now >= before.sessionExpiresAt && es[n].action == CheckCardReader(NoCard))
  {
    AtStep(cfg, es, n);
  }

  /**
   Such a login happens: the session runs out while the card is still in the reader, and taking
   the card out afterwards logs its user in.
   */
  lemma LoginPastExpiry(cfg: Config, ms: MachineState, user: User, read: Time, entered: Time, removed: Time)
    requires !cfg.skipPinEntry && Eligible(cfg, ms, user) && removed >= SessionEndTime(ms, entered)
    ensures var es := [Event(ms, CheckCardReader(Ready(Some(CardDetails(user, None, true)))), read),
                       Event(ms, CheckPinAction(Correct), entered),
                       Event(ms, CheckCardReader(NoCard), removed)];
            && At(cfg, es, 3).LoggedIn? && At(cfg, es, 3).user == user
            && At(cfg, es, 3).sessionExpiresAt == SessionEndTime(ms, entered) <= es[2].now
  {
    hide SessionEndTime, LockoutEndTime;
    var es := [Event(ms, CheckCardReader(Ready(Some(CardDetails(user, None, true)))), read),
               Event(ms, CheckPinAction(Correct), entered),
               Event(ms, CheckCardReader(NoCard), removed)];
    AtStep(cfg, es, 0);
    AtStep(cfg, es, 1);
    AtStep(cfg, es, 2);
    assert At(cfg, es, 1).CheckingPin? && At(cfg, es, 1).user == user;
    assert At(cfg, es, 2) == RemoveCard(user, SessionEndTime(ms, entered));
  }

  /**
   An administrator is shown the card in the reader after a poll, and nobody else is shown one: its
   user if it is of the machine's jurisdiction and, for a poll worker's card, has a PIN where those
   have one, and otherwise nobody.
   */
  lemma ProgrammableCardShown(cfg: Config, es: seq<Event>, n: nat)
    requires n < |es| && At(cfg, es, n + 1).LoggedIn?
    requires es[n].action.CheckCardReader?
    ensures var after, ms, cardStatus := At(cfg, es, n + 1), es[n].ms, es[n].action.cardStatus;
            && (after.programmableCard.Some? <==> after.user.SystemAdministrator?)
            && (after.programmableCard.Some? ==>
                  match cardStatus {
                    case Ready(details) =>
                      && after.programmableCard.value.ReadyFor?
                      && forall user :: after.programmableCard.value.programmedUser == Some(user) <==>
                           && details.Some? && details.value.user == user
                           && JurisdictionOf(user) == ms.jurisdiction
                           && (user.PollWorker? ==> details.value.hasPin == ms.arePollWorkerCardPinsEnabled)
                    case _ => after.programmableCard.value == NotReady(cardStatus)
                  })
  {
    hide SessionEndTime, LockoutEndTime;
    AtStep(cfg, es, n);
    NoCardForOthers(cfg, es, n);
  }

  lemma {:induction false} NoCardForOthers(cfg: Config, es: seq<Event>, n: nat)
    requires n <= |es|
    ensures At(cfg, es, n).LoggedIn? && At(cfg, es, n).programmableCard.Some? ==> At(cfg, es, n).user.SystemAdministrator?
  {
    assert es[..0] == [];
    if n > 0 {
      NoCardForOthers(cfg, es, n - 1);
      AtStep(cfg, es, n - 1);
    }
  }

  // ---- where each event leads

  /**
   A session lasts until a log-out or its end, whatever the reader holds. The right PIN asks whoever
   was asked for it to remove the card, and removing the card logs them in, as long as the session
   that began with the PIN; a prompt is given up when its card is gone.
   */
  lemma Onward(cfg: Config, es: seq<Event>, n: nat)
    requires n < |es|
    ensures var before, after, now := At(cfg, es, n), At(cfg, es, n + 1), es[n].now;
            var inSession := before.LoggedIn? && now < before.sessionExpiresAt;
            var signedOut := before.LoggedOut? || (before.LoggedIn? && !inSession);
            match es[n].action {
              case LogOutAction => after == LoggedOut(MachineLocked, None)
              case UpdateSessionExpiryAction(end) =>
                if inSession then after == LoggedIn(before.user, end, before.programmableCard)
                else if before.RemoveCard? then after == RemoveCard(before.user, end)
                else if before.CheckingPin? || before.LoggedOut? then after == before
                else after == LoggedOut(MachineLocked, None)
              case CheckPinAction(response) =>
                if before.CheckingPin? then
                  && (after.RemoveCard? <==> response == Correct) && (after.CheckingPin? <==> response != Correct)
                  && after.user == before.user
                  && (response == Correct ==> after.sessionExpiresAt == SessionEndTime(es[n].ms, now))
                else if inSession || before.RemoveCard? || before.LoggedOut? then after == before
                else after == LoggedOut(MachineLocked, None)
              case CheckCardReader(cardStatus) =>
                if inSession then
                  after.LoggedIn? && after.user == before.user && after.sessionExpiresAt == before.sessionExpiresAt
                else if before.RemoveCard? then
                  if cardStatus.NoCard? then
                    after.LoggedIn? && after.user == before.user && after.sessionExpiresAt == before.sessionExpiresAt
                  else after == before
                else if before.CheckingPin? then
                  if cardStatus.NoCard? then after == LoggedOut(MachineLocked, None) else after == before
                else if cardStatus.Ready? && cardStatus.cardDetails.Some? && Eligible(cfg, es[n].ms, cardStatus.cardDetails.value.user) then
                  && (after.RemoveCard? <==> cfg.skipPinEntry) && (after.CheckingPin? <==> !cfg.skipPinEntry)
                  && after.user == cardStatus.cardDetails.value.user
                  && (cfg.skipPinEntry ==> after.sessionExpiresAt == SessionEndTime(es[n].ms, now))
                else after.LoggedOut?
            }
  {
    hide SessionEndTime, LockoutEndTime;
    AtStep(cfg, es, n);
  }

  /** So a login lasts exactly until a log-out, up to its end. */
  lemma LoginLasts(cfg: Config, es: seq<Event>, n: nat)
    requires n < |es| && At(cfg, es, n).LoggedIn? && es[n].now < At(cfg, es, n).sessionExpiresAt
    ensures At(cfg, es, n + 1).LoggedIn? <==> es[n].action != LogOutAction
    ensures At(cfg, es, n + 1).LoggedIn? ==> At(cfg, es, n + 1).user == At(cfg, es, n).user
  {
    Onward(cfg, es, n);
  }
}
