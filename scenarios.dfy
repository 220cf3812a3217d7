/** Worked runs of the login logic and the list filter on concrete values. */
module Scenarios {
  import opened Wrappers
  import opened PhpText
  import opened AdminConfig
  import opened SessionGate
  import opened Login
  import opened Catalog

  /** 2025-01-01T00:00:00+08:00, in seconds. */
  const T0: int := 1735660800

  /** A fresh record: passcode "abc123", five hours, locked after expiry, version 1. */
  const Fresh: Config := Config(Some("abc123"), 5, Absent, Absent, true, 1)

  /** Surrounding whitespace in the submitted field is ignored. */
  lemma PaddedInputIsTrimmed()
    ensures InputPasscode(Some(" abc123\n")) == "abc123"
  {
    TrimStripsPadding(" ", "abc123", "\n");
    assert " " + "abc123" + "\n" == " abc123\n";
  }

  /** `Fresh` once activated at T0: the window runs to T0 plus five hours. */
  const Started: Config := Fresh.(firstUsedAt := At(T0), expiresAt := At(T0 + 5 * 3600))

  /** First use at T0: the window starts, the record is saved and the session is written. */
  lemma ActivateAtT0()
    ensures StepLogin("abc123", Some(Fresh), NewSession, T0, true)
         == LoginResult(Some(Started), SignedIn(T0, 1), Some(Started), Activated)
    ensures WithDefaults(ToFile(Started)) == Started
  {
    assert WindowAt(Fresh, T0) == Inactive;
    assert Activate(Fresh, T0) == Started;
  }

  /** From the reloaded record an hour later: admitted, nothing saved, timestamps untouched. */
  lemma ReplayAnHourLater()
    ensures StepLogin("abc123", Some(Started), NewSession, T0 + 3600, true)
         == LoginResult(Some(Started), SignedIn(T0 + 3600, 1), None, Welcome)
  {
    assert WindowAt(Started, T0 + 3600) == Active;
  }

  /** A mistyped passcode two hours in, and the right one six hours in: the locked passcode is refused. */
  lemma MistypeThenLockedOut(s: Session)
    ensures StepLogin("wrong", Some(Started), s, T0 + 2 * 3600, true) == Refuse(Some(Started), s, PasscodeIncorrect)
    ensures StepLogin("abc123", Some(Started), s, T0 + 6 * 3600, true) == Refuse(Some(Started), s, ExpiredLocked)
  {
    assert WindowAt(Started, T0 + 6 * 3600) == Expired;
  }

  /** The same record without the lock: after expiry the right passcode is still refused. */
  lemma UnlockedStaysExpired()
    ensures var c := Fresh.(lockedAfterExpire := false, firstUsedAt := At(T0), expiresAt := At(T0 + 5 * 3600));
      StepLogin("abc123", Some(c), NewSession, T0 + 6 * 3600, true) == Refuse(Some(c), NewSession, ExpiredUnlocked)
  {
  }

  /** With no stored passcode no submission ever succeeds. */
  lemma UnsetPasscodeNeverAdmits(input: string, s: Session, now: int, saveOk: bool)
    ensures StepLogin(input, Some(Fresh.(userPasscode := None)), s, now, saveOk).notice in {PasscodeRequired, PasscodeUnset}
  {
  }

  /** Visible, hidden, visible: the two visible items, in their order. */
  lemma FilterExample(a: Item, b: Item, c: Item)
    requires a.visible && !b.visible && c.visible
    ensures Visible([a, b, c]) == [a, c]
  {
    assert [a, b, c][..2] == [a, b];
    assert [a, b][..1] == [a];
    assert [a][..0] == [];
    assert Visible([a]) == [a];
    assert Visible([a, b]) == [a];
  }
}
