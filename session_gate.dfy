/**
 * The per-caller session and the gate `is_logged_in_today`, which decides
 * from the session and the admin record alone whether the caller is signed in.
 */
module SessionGate {
  import opened Wrappers
  import opened AdminConfig

  /** `dl_auth`: unset, the boolean `true`, or any other value (which the strict test rejects). */
  datatype AuthFlag = Unset | ExactlyTrue | OtherValue

  /** The session keys the logic reads and writes; times are in seconds. */
  datatype Session = Session(dlAuth: AuthFlag, loginTime: Option<int>, passcodeVersion: Option<int>)

  /** A session on first contact. */
  const NewSession: Session := Session(Unset, None, None)

  /** The triple every successful login writes: `dl_auth`, `login_time`, `passcode_version`. */
  function SignedIn(now: int, version: int): (s: Session)
    ensures s.loginTime == Some(now)
    ensures forall v :: IsLoggedInToday(s, Some(v)) <==> v == version
  {
    Session(ExactlyTrue, Some(now), Some(version))
  }

  /**
   * `is_logged_in_today`: the auth flag must be exactly `true`, and when both
   * the session and the admin record carry a passcode version they must
   * agree. The validity window is not consulted.
   */
  function IsLoggedInToday(s: Session, adminVersion: Option<int>): (ok: bool)
    ensures s.dlAuth != ExactlyTrue ==> !ok
    ensures adminVersion.Some? && s.passcodeVersion.Some? && s.passcodeVersion != adminVersion ==> !ok
    ensures s.dlAuth == ExactlyTrue && (adminVersion.None? || s.passcodeVersion.None? || s.passcodeVersion == adminVersion) ==> ok
  {
    if s.dlAuth != ExactlyTrue then false
    else if adminVersion.Some? && s.passcodeVersion.Some? then
      s.passcodeVersion.value == adminVersion.value
    else true
  }

  /** The gate as the page applies it: a loaded (and defaulted) admin record is required. */
  function LoggedIn(admin: Option<Config>, s: Session): (ok: bool)
    ensures admin.None? ==> !ok
    ensures admin.Some? ==>
      (ok <==> s.dlAuth == ExactlyTrue && (s.passcodeVersion.None? || s.passcodeVersion == Some(admin.value.passcodeVersion)))
  {
    admin.Some? && IsLoggedInToday(s, Some(admin.value.passcodeVersion))
  }

  /** The session a successful login writes passes the gate against the same record. */
  lemma SignedInPasses(c: Config, now: int)
    ensures LoggedIn(Some(c), SignedIn(now, c.passcodeVersion))
  {
  }

  /** Bumping `passcode_version` signs out every session stamped with another version, whatever the window says. */
  lemma VersionBumpSignsOut(c: Config, s: Session, v: int)
    requires s.passcodeVersion.Some? && s.passcodeVersion.value != v
    ensures !LoggedIn(Some(c.(passcodeVersion := v)), s)
  {
  }

  /** The gate never looks at the timestamps: a session granted in the window outlives its expiry. */
  lemma GateIgnoresWindow(c: Config, s: Session, first: Stamp, expires: Stamp)
    ensures LoggedIn(Some(c.(firstUsedAt := first, expiresAt := expires)), s) == LoggedIn(Some(c), s)
  {
  }
}
