/** What holds in every run of the inserted-card machine. */
module InsertedAuthRuns {
  import opened Wrappers
  import opened Auth
  import opened InsertedAuth

  /** The state after the first `n` events of a run from the initial state. */
  function At(cfg: Config, es: seq<Event>, n: nat): State
    requires n <= |es|
  {
    Run(cfg, INITIAL, es[..n])
  }

  lemma AtStart(cfg: Config, es: seq<Event>)
    ensures At(cfg, es, 0) == INITIAL
  {
    assert es[..0] == [];
  }

  lemma AtStep(cfg: Config, es: seq<Event>, n: nat)
    requires n < |es|
    ensures At(cfg, es, n + 1) == Apply(cfg, At(cfg, es, n), es[n])
  {
    assert es[..n + 1][..n] == es[..n];
  }

  // ---- logging in takes a PIN

  predicate PinAccepted(cfg: Config, es: seq<Event>, j: nat, user: User)
    requires j < |es|
  {
    && es[j].Update? && es[j].action == CheckPinAction(Correct)
    && At(cfg, es, j).auth.CheckingPin? && At(cfg, es, j).auth.user == user
  }

  predicate PinlessLogin(cfg: Config, es: seq<Event>, j: nat, user: User)
    requires j < |es|
  {
    && es[j].Update? && es[j].action.CheckCardReader?
    && user.PollWorker? && !es[j].ms.arePollWorkerCardPinsEnabled
    && (At(cfg, es, j).auth.LoggedOut? || (At(cfg, es, j).auth.LoggedIn? && es[j].now >= At(cfg, es, j).auth.sessionExpiresAt))
  }

  ghost predicate LoggedInSince(cfg: Config, es: seq<Event>, j: nat, n: nat, user: User)
    requires n <= |es|
  {
    forall k :: j < k <= n ==> At(cfg, es, k).auth.LoggedIn? && At(cfg, es, k).auth.user == user
  }

  /**
   Whoever is logged in got there by an accepted PIN, with no logged-out state since, or is a
   poll worker whose card was read on a machine with poll worker PINs switched off.
   */
  lemma {:induction false} LoginNeedsPin(cfg: Config, es: seq<Event>, n: nat) returns (j: nat)
    requires !cfg.skipPinEntry && n <= |es|
    requires At(cfg, es, n).auth.LoggedIn?
    ensures j < n && LoggedInSince(cfg, es, j, n, At(cfg, es, n).auth.user)
    ensures PinAccepted(cfg, es, j, At(cfg, es, n).auth.user) || PinlessLogin(cfg, es, j, At(cfg, es, n).auth.user)
  {
    AtStart(cfg, es);
    if n > 0 {
      AtStep(cfg, es, n - 1);
      var before, after := At(cfg, es, n - 1).auth, At(cfg, es, n).auth;
      var kept := before.LoggedIn? && !(es[n - 1].Update? && es[n - 1].now >= before.sessionExpiresAt);
      if kept && after.user == before.user {
        j := LoginNeedsPin(cfg, es, n - 1);
      } else {
        j := n - 1;
      }
    }
  }

  /** So a PIN-gated role is logged in only after an accepted PIN. */
  lemma PinGatedRoleNeedsPin(cfg: Config, es: seq<Event>, n: nat) returns (j: nat)
    requires !cfg.skipPinEntry && n <= |es|
    requires At(cfg, es, n).auth.LoggedIn?
    requires At(cfg, es, n).auth.user.PollWorker? ==>
               forall e :: e in es && e.Update? ==> e.ms.arePollWorkerCardPinsEnabled
    ensures j < n && PinAccepted(cfg, es, j, At(cfg, es, n).auth.user)
    ensures LoggedInSince(cfg, es, j, n, At(cfg, es, n).auth.user)
  {
    j := LoginNeedsPin(cfg, es, n);
    assert es[j] in es;
  }

  // ---- what a PIN prompt and a session show

  ghost predicate CheckingSince(cfg: Config, es: seq<Event>, j: nat, n: nat, user: User)
    requires n <= |es|
  {
    forall k :: j < k <= n ==> At(cfg, es, k).auth.CheckingPin? && At(cfg, es, k).auth.user == user
  }

  predicate Answers(es: seq<Event>, k: nat, response: PinResponse)
    requires k < |es|
  {
    es[k].Update? && es[k].action == CheckPinAction(response)
  }

  predicate AnswersWrong(es: seq<Event>, k: nat)
    requires k < |es|
  {
    es[k].Update? && es[k].action.CheckPinAction? && es[k].action.response.Incorrect?
  }

  /** The prompt at `n` began with the card read at `j`, locked by the attempts the card reported. */
  predicate PromptedByCard(cfg: Config, es: seq<Event>, j: nat, auth: AuthStatus)
    requires j < |es| && auth.CheckingPin?
  {
    && !At(cfg, es, j).auth.CheckingPin? && es[j].Update?
    && es[j].action.CheckCardReader? && es[j].action.cardStatus.Ready? && es[j].action.cardStatus.cardDetails.Some?
    && var details := es[j].action.cardStatus.cardDetails.value;
       && auth.user == details.user && auth.wrongPinEnteredAt == None
       && auth.lockedOutUntil == LockoutEndTime(es[j].ms, details.numIncorrectPinAttempts, es[j].now)
  }

  /** The prompt at `n` repeats after the wrong PIN at `j`, locked by the attempts the card answered with. */
  predicate PromptedByWrongPin(cfg: Config, es: seq<Event>, j: nat, auth: AuthStatus)
    requires j < |es| && auth.CheckingPin?
  {
    && At(cfg, es, j).auth.CheckingPin? && AnswersWrong(es, j)
    && auth.wrongPinEnteredAt == Some(es[j].now)
    && auth.lockedOutUntil == LockoutEndTime(es[j].ms, Some(es[j].action.response.numIncorrectPinAttempts), es[j].now)
  }

  /**
   A PIN prompt shows the lockout and the time of the last wrong PIN, or the lockout the card was
   read with if there was none, and an error exactly when a check has failed since.
   */
  lemma {:induction false} PromptExplained(cfg: Config, es: seq<Event>, n: nat) returns (j: nat)
    requires n <= |es| && At(cfg, es, n).auth.CheckingPin?
    ensures j < n && CheckingSince(cfg, es, j, n, At(cfg, es, n).auth.user)
    ensures PromptedByCard(cfg, es, j, At(cfg, es, n).auth) || PromptedByWrongPin(cfg, es, j, At(cfg, es, n).auth)
    ensures forall k :: j < k < n ==> !AnswersWrong(es, k)
    ensures At(cfg, es, n).auth.error <==> exists k :: j < k < n && Answers(es, k, PinError)
  {
    hide LockoutEndTime;
    AtStart(cfg, es);
    if n > 0 {
      AtStep(cfg, es, n - 1);
      var before := At(cfg, es, n - 1).auth;
      if before.CheckingPin? && !AnswersWrong(es, n - 1) {
        j := PromptExplained(cfg, es, n - 1);
        if Answers(es, n - 1, PinError) {
          assert j < n - 1 < n;
        } else if exists k :: j < k < n && Answers(es, k, PinError) {
          var k :| j < k < n && Answers(es, k, PinError);
          assert k < n - 1;
        }
      } else {
        j := n - 1;
      }
    }
  }

  predicate SetsExpiry(es: seq<Event>, k: nat)
    requires k < |es|
  {
    es[k].Update? && es[k].action.UpdateSessionExpiryAction?
  }

  /** A session ends when the last expiry update since the login says, or else a session's length after the login. */
  lemma {:induction false} SessionExplained(cfg: Config, es: seq<Event>, n: nat) returns (j: nat)
    requires n <= |es| && At(cfg, es, n).auth.LoggedIn?
    ensures j < n && es[j].Update? && LoggedInSince(cfg, es, j, n, At(cfg, es, n).auth.user)
    ensures forall k :: j < k < n ==> !SetsExpiry(es, k)
    ensures var expiry, before := At(cfg, es, n).auth.sessionExpiresAt, Current(At(cfg, es, j).auth, es[j].now);
            if SetsExpiry(es, j) then before.LoggedIn? && expiry == es[j].action.sessionExpiresAt
            else !before.LoggedIn? && expiry == SessionEndTime(es[j].ms, es[j].now)
  {
    hide LockoutEndTime, ValidateCard, SessionEndTime;
    AtStart(cfg, es);
    if n > 0 {
      AtStep(cfg, es, n - 1);
      var e, before := es[n - 1], At(cfg, es, n - 1).auth;
      if e.Update? && (SetsExpiry(es, n - 1) || !Current(before, e.now).LoggedIn?) {
        j := n - 1;
      } else {
        j := SessionExplained(cfg, es, n - 1);
      }
    }
  }

  // ---- sessions end

  /**
   After any update other than an expiry update, whoever is logged in is within the session;
   and no update, not even an expiry update, keeps a session that has expired.
   */
  lemma SessionEndsAtExpiry(cfg: Config, es: seq<Event>, n: nat)
    requires n < |es| && es[n].Update?
    requires SessionHours(es[n].ms) > 0
    ensures var before, after, now := At(cfg, es, n).auth, At(cfg, es, n + 1).auth, es[n].now;
            && (after.LoggedIn? && !es[n].action.UpdateSessionExpiryAction? ==> now < after.sessionExpiresAt)
            && (before.LoggedIn? && now >= before.sessionExpiresAt && after.LoggedIn? ==>
                  && es[n].action.CheckCardReader?
                  && (cfg.skipPinEntry || (after.user.PollWorker? && !es[n].ms.arePollWorkerCardPinsEnabled))
                  && after.sessionExpiresAt == SessionEndTime(es[n].ms, now))
  {
    AtStep(cfg, es, n);
  }

  // ---- who may be in the reader

  /** A card the machine accepts. */
  predicate Eligible(cfg: Config, ms: MachineState, cardStatus: CardStatus) {
    && cardStatus.Ready? && cardStatus.cardDetails.Some?
    && var details := cardStatus.cardDetails.value;
    && (ms.jurisdiction !in {None, Some("")} ==> JurisdictionOf(details.user) == ms.jurisdiction)
    && (details.user.ElectionManager? && ms.electionHash !in {None, Some("")}
        && !cfg.allowElectionManagersToAccessMachinesConfiguredForOtherElections ==>
          Some(details.user.electionHash) == ms.electionHash)
    && (details.user.PollWorker? ==>
          && details.user.electionHash != ""
          && Some(details.user.electionHash) == ms.electionHash
          && details.hasPin == ms.arePollWorkerCardPinsEnabled)
  }

  /** A poll signs the user out unless an eligible card is in the reader, whoever was signed in. */
  lemma PollNeedsEligibleCard(cfg: Config, es: seq<Event>, n: nat)
    requires n < |es| && es[n].Update? && es[n].action.CheckCardReader?
    ensures At(cfg, es, n + 1).auth.LoggedOut? <==> !Eligible(cfg, es[n].ms, es[n].action.cardStatus)
    ensures Eligible(cfg, es[n].ms, es[n].action.cardStatus) ==>
              var before, after := Current(At(cfg, es, n).auth, es[n].now), At(cfg, es, n + 1).auth;
              if before.LoggedOut? then after.user == es[n].action.cardStatus.cardDetails.value.user
              else after == before
  {
    AtStep(cfg, es, n);
  }

  predicate OfJurisdiction(ms: MachineState, user: User) {
    ms.jurisdiction !in {None, Some("")} ==> JurisdictionOf(user) == ms.jurisdiction
  }

  /** Why a poll signs the user out, case by case. */
  lemma PollReason(cfg: Config, es: seq<Event>, n: nat)
    requires n < |es| && es[n].Update? && es[n].action.CheckCardReader?
    requires At(cfg, es, n + 1).auth.LoggedOut?
    ensures var after, ms, cardStatus := At(cfg, es, n + 1).auth, es[n].ms, es[n].action.cardStatus;
            && (after.reason == NoCardReason <==> cardStatus.NoCard? || cardStatus.UnknownError?)
            && (after.reason == CardErrorReason <==> cardStatus.CardError?)
            && after.cardUserRole == (if cardStatus.Ready? && cardStatus.cardDetails.Some?
                                      then Some(RoleOf(cardStatus.cardDetails.value.user)) else None)
            && (cardStatus.Ready? && cardStatus.cardDetails.None? ==> after.reason == InvalidUserOnCard)
            && (cardStatus.Ready? && cardStatus.cardDetails.Some? ==>
                  var user, ours := cardStatus.cardDetails.value.user, OfJurisdiction(ms, cardStatus.cardDetails.value.user);
                  && (after.reason == MachineNotConfigured <==> ours && user.PollWorker? && ms.electionHash in {None, Some("")})
                  && (after.reason == PollWorkerWrongElection <==>
                        ours && user.PollWorker? && ms.electionHash !in {None, Some("")} && Some(user.electionHash) != ms.electionHash)
                  && (after.reason == ElectionManagerWrongElection <==> ours && user.ElectionManager?)
                  && (after.reason == InvalidUserOnCard <==>
                        !ours || (user.PollWorker? && ms.electionHash !in {None, Some("")} && Some(user.electionHash) == ms.electionHash)))
  {
    AtStep(cfg, es, n);
  }

  // ---- cardless voter sessions

  predicate StartsVoter(cfg: Config, es: seq<Event>, j: nat, v: CardlessVoter)
    requires j < |es|
  {
    cfg.allowCardlessVoterSessions && es[j] == StartVoter(v) && PollWorkerIn(At(cfg, es, j).auth)
  }

  /** Neither ended nor replaced by another session that did start. */
  ghost predicate Undisturbed(cfg: Config, es: seq<Event>, j: nat, n: nat)
    requires n <= |es|
  {
    forall k :: j < k < n ==> es[k] != EndVoter && (es[k].StartVoter? ==> !PollWorkerIn(At(cfg, es, k).auth))
  }

  ghost predicate VoterSessionFrom(cfg: Config, es: seq<Event>, j: nat, n: nat, v: CardlessVoter)
    requires n <= |es|
  {
    j < n && StartsVoter(cfg, es, j, v) && Undisturbed(cfg, es, j, n)
  }

  /**
   A cardless voter session exists exactly when a logged-in poll worker started it and it has
   been neither ended nor replaced since.
   */
  lemma {:induction false} VoterSessionExactly(cfg: Config, es: seq<Event>, n: nat, v: CardlessVoter)
    requires n <= |es|
    ensures At(cfg, es, n).voter == Some(v) <==> exists j: nat :: VoterSessionFrom(cfg, es, j, n, v)
  {
    if n == 0 {
      AtStart(cfg, es);
    } else {
      AtStep(cfg, es, n - 1);
      VoterSessionExactly(cfg, es, n - 1, v);
      var e, before := es[n - 1], At(cfg, es, n - 1);
      if e.StartVoter? && PollWorkerIn(before.auth) && cfg.allowCardlessVoterSessions {
        if e.voter == v {
          assert VoterSessionFrom(cfg, es, n - 1, n, v);
        }
      } else if At(cfg, es, n).voter == Some(v) {
        var j: nat :| VoterSessionFrom(cfg, es, j, n - 1, v);
        assert VoterSessionFrom(cfg, es, j, n, v);
      } else if exists j: nat :: VoterSessionFrom(cfg, es, j, n, v) {
        var j: nat :| VoterSessionFrom(cfg, es, j, n, v);
        assert j < n - 1;
        assert VoterSessionFrom(cfg, es, j, n - 1, v);
      }
    }
  }

  /** A voter is reported only within such a session, and then only once the reader is empty. */
  lemma VoterReported(cfg: Config, es: seq<Event>, ms: MachineState, now: Time)
    ensures var r := ReportOf(ms, At(cfg, es, |es|), now);
            && (r.VoterLoggedIn? ==>
                  && At(cfg, es, |es|).auth.LoggedOut?
                  && exists j: nat :: VoterSessionFrom(cfg, es, j, |es|, r.voter))
            && (r.PollWorkerWithVoter? ==>
                  && PollWorkerIn(At(cfg, es, |es|).auth)
                  && exists j: nat :: VoterSessionFrom(cfg, es, j, |es|, r.voter))
  {
    var s := At(cfg, es, |es|);
    if s.voter.Some? {
      VoterSessionExactly(cfg, es, |es|, s.voter.value);
    }
  }

  /**
   Asked for its status, the machine reports a voter logged in exactly when its poll finds the
   reader empty, or at fault, within a voter's session; it reports a voter with the poll worker
   exactly when one is logged in within such a session, and otherwise what it is itself.
   */
  lemma VoterReportedExactly(cfg: Config, es: seq<Event>, ms: MachineState, cardStatus: CardStatus, now: Time, v: CardlessVoter)
    requires es != [] && es[|es| - 1] == Update(ms, CheckCardReader(cardStatus), now)
    ensures var s := At(cfg, es, |es|);
            var session := exists j: nat :: VoterSessionFrom(cfg, es, j, |es|, v);
            && (ReportOf(ms, s, now) == VoterLoggedIn(v, SessionEndTime(ms, now)) <==>
                  (cardStatus.NoCard? || cardStatus.UnknownError?) && session)
            && (s.auth.LoggedIn? ==>
                  (ReportOf(ms, s, now) == PollWorkerWithVoter(s.auth.user, s.auth.sessionExpiresAt, v) <==>
                     s.auth.user.PollWorker? && session))
            && (ReportOf(ms, s, now) == Own(s.auth) <==>
                  s.voter.None? || (s.auth.LoggedIn? && !s.auth.user.PollWorker?) || s.auth.CheckingPin?
                  || (s.auth.LoggedOut? && !(cardStatus.NoCard? || cardStatus.UnknownError?)))
  {
    hide SessionEndTime, LockoutEndTime;
    AtStep(cfg, es, |es| - 1);
    VoterSessionExactly(cfg, es, |es|, v);
    if At(cfg, es, |es|).auth.LoggedOut? {
      PollReason(cfg, es, |es| - 1);
    }
    hide VoterSessionFrom, ValidateCard;
  }

  // ---- where each event leads

  /**
   A session lasts until a log-out, a poll that finds no eligible card, or its end. A prompt ends
   with the right PIN, which logs in whoever was asked, or with such a poll or a log-out. A card
   read with nobody in logs in where no PIN is needed, and else prompts.
   */
  lemma Onward(cfg: Config, es: seq<Event>, n: nat)
    requires n < |es|
    ensures var before, after := At(cfg, es, n).auth, At(cfg, es, n + 1).auth;
            match es[n] {
              case StartVoter(_) => after == before
              case EndVoter => after == before
              case Update(ms, action, now) =>
                var inSession := before.LoggedIn? && now < before.sessionExpiresAt;
                match action {
                  case LogOutAction => after == LoggedOut(NoCardReason, None)
                  case UpdateSessionExpiryAction(end) =>
                    if inSession then after == LoggedIn(before.user, end)
                    else if before.LoggedIn? then after == LoggedOut(NoCardReason, None)
                    else after == before
                  case CheckPinAction(response) =>
                    if before.CheckingPin? then
                      && (after.LoggedIn? <==> response == Correct) && (after.CheckingPin? <==> response != Correct)
                      && after.user == before.user
                      && (response == Correct ==> after.sessionExpiresAt == SessionEndTime(ms, now))
                    else if inSession || before.LoggedOut? then after == before
                    else after == LoggedOut(NoCardReason, None)
                  case CheckCardReader(cardStatus) =>
                    if !Eligible(cfg, ms, cardStatus) then after.LoggedOut?
                    else if before.CheckingPin? || inSession then after == before
                    else
                      var user := cardStatus.cardDetails.value.user;
                      var noPin := cfg.skipPinEntry || (user.PollWorker? && !ms.arePollWorkerCardPinsEnabled);
                      && (after.LoggedIn? <==> noPin) && (after.CheckingPin? <==> !noPin)
                      && after.user == user
                      && (noPin ==> after.sessionExpiresAt == SessionEndTime(ms, now))
                }
            }
  {
    hide SessionEndTime, LockoutEndTime;
    AtStep(cfg, es, n);
  }
}
