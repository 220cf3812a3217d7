/**
 * The login branch: a submitted passcode is checked against the admin
 * record, the validity window is started on first use, and a successful
 * login writes the session. `StepLogin` is the decision as a function of
 * the request; `Submit` performs it step by step, mutating its copies of
 * the admin record and the session.
 */
module Login {
  import opened Wrappers
  import opened PhpText
  import opened AdminConfig
  import opened SessionGate

  /** The error and success texts the request can produce. */
  datatype Notice =
    | ConfigUnreadable   // admin.json could not be read (reported on every request)
    | NotSetUp           // login attempted without a loaded admin record
    | PasscodeRequired   // the trimmed input is empty
    | PasscodeUnset      // no passcode is stored
    | PasscodeIncorrect  // the input differs from the stored passcode
    | StorageFailed      // activation could not be saved
    | StateCorrupt       // `expires_at` is present but does not parse
    | ExpiredLocked      // the window is over and the passcode is locked
    | ExpiredUnlocked    // the window is over
    | Activated          // first use: the window has started
    | Welcome            // login inside the active window
  {
    predicate IsError() {
      !(Activated? || Welcome?)
    }
  }

  /** The in-memory admin record and session after the attempt, what was saved, and the one notice. */
  datatype LoginResult = LoginResult(admin: Option<Config>, session: Session, saved: Option<Config>, notice: Notice)

  /** The candidate passcode: the trimmed form field, or '' when it is missing. */
  function InputPasscode(field: Option<string>): (p: string)
    ensures p == "" <==> field.None? || AllTrimChars(field.value)
    // a posted field is PHP-trimmed: `TrimSpan` gives the one slice `Trim` keeps
    ensures field.Some? ==> p == Trim(field.value)
    ensures field.Some? ==> |p| <= |field.value| && (p == [] || (!IsTrimChar(p[0]) && !IsTrimChar(p[|p| - 1])))
  {
    if field.Some? then TrimEmptyIff(field.value); Trim(field.value) else ""
  }

  function Refuse(admin: Option<Config>, session: Session, n: Notice): LoginResult {
    LoginResult(admin, session, None, n)
  }

  /**
   * One login attempt with candidate `input` at time `now`; `saveOk` is
   * whether writing admin.json succeeds.
   */
  function StepLogin(input: string, admin: Option<Config>, session: Session, now: int, saveOk: bool): (r: LoginResult)
    // a refusal never writes the session or the file
    ensures r.notice.IsError() ==> r.session == session && r.saved.None?
    // and only a failed save departs from the loaded record
    ensures r.notice.IsError() && r.notice != StorageFailed ==> r.admin == admin
    // success needs the exact, non-empty stored passcode and writes the session triple
    ensures !r.notice.IsError() ==>
      admin.Some? && input != "" && input == StoredPasscode(admin.value)
      && r.session == SignedIn(now, admin.value.passcodeVersion)
    // only activation writes the file, and it writes the record in memory
    ensures r.saved.Some? ==> r.notice == Activated && r.saved == r.admin
    // activation happens only from an inactive window, and reports success only if saved
    ensures r.notice in {Activated, StorageFailed} ==>
      admin.Some? && WindowAt(admin.value, now) == Inactive && r.admin == Some(Activate(admin.value, now))
      && (r.notice == Activated <==> saveOk)
    // a login inside the window touches neither record nor file
    ensures r.notice == Welcome ==>
      admin.Some? && WindowAt(admin.value, now) == Active && r.admin == admin && r.saved.None?
    // expired and unreadable windows fail closed
    ensures admin.Some? && WindowAt(admin.value, now) in {Expired, Unreadable} ==>
      r.notice.IsError() && r.admin == admin
    // the exact, non-empty stored passcode gets the outcome its window calls for
    ensures admin.Some? && input != "" && input == StoredPasscode(admin.value) ==>
      var c := admin.value;
      match WindowAt(c, now)
      case Active => r == LoginResult(admin, SignedIn(now, c.passcodeVersion), None, Welcome)
      case Inactive =>
        r.admin == Some(Activate(c, now)) && r.notice == (if saveOk then Activated else StorageFailed)
        && r.saved == (if saveOk then r.admin else None)
        && r.session == (if saveOk then SignedIn(now, c.passcodeVersion) else session)
      case Unreadable => r == LoginResult(admin, session, None, StateCorrupt)
      case Expired =>
        r == LoginResult(admin, session, None, if c.lockedAfterExpire then ExpiredLocked else ExpiredUnlocked)
  {
    if admin.None? then Refuse(admin, session, NotSetUp)
    else if input == "" then Refuse(admin, session, PasscodeRequired)
    else
      var c := admin.value;
      if StoredPasscode(c) == "" then Refuse(admin, session, PasscodeUnset)
      else if input != StoredPasscode(c) then Refuse(admin, session, PasscodeIncorrect)
      else match WindowAt(c, now)
        case Inactive =>
          var a := Activate(c, now);
          if saveOk then LoginResult(Some(a), SignedIn(now, a.passcodeVersion), Some(a), Activated)
          else LoginResult(Some(a), session, None, StorageFailed)
        case Active => LoginResult(admin, SignedIn(now, c.passcodeVersion), None, Welcome)
        case Expired => Refuse(admin, session, if c.lockedAfterExpire then ExpiredLocked else ExpiredUnlocked)
        case Unreadable => Refuse(admin, session, StateCorrupt)
  }

  /**
   * The login branch as the request runs it: `field` is the posted
   * `user_passcode`, `saveOk` the outcome of writing admin.json.
   */
  method Submit(field: Option<string>, admin: Option<Config>, session: Session, now: int, saveOk: bool)
    returns (admin': Option<Config>, session': Session, saved: Option<Config>, notice: Notice)
    ensures LoginResult(admin', session', saved, notice) == StepLogin(InputPasscode(field), admin, session, now, saveOk)
  {
    var input := InputPasscode(field);
    admin', session', saved := admin, session, None;
    if admin.None? {
      notice := NotSetUp;
    } else if input == "" {
      notice := PasscodeRequired;
    } else {
      var c := admin.value;
      var stored := StoredPasscode(c);
      if stored == "" {
        notice := PasscodeUnset;
      } else if input != stored {
        notice := PasscodeIncorrect;
      } else {
        admin', session', saved, notice := CheckWindow(c, session, now, saveOk);
      }
    }
  }

  /**
   * The passcode matched: start the window on first use, admit inside it,
   * refuse when it is over or unreadable.
   */
  method CheckWindow(c: Config, session: Session, now: int, saveOk: bool)
    returns (admin': Option<Config>, session': Session, saved: Option<Config>, notice: Notice)
    requires StoredPasscode(c) != ""
    ensures LoginResult(admin', session', saved, notice) == StepLogin(StoredPasscode(c), Some(c), session, now, saveOk)
  {
    admin', session', saved := Some(c), session, None;
    var first, expires, ttl := c.firstUsedAt, c.expiresAt, c.ttlHours;
    if first == Absent || first == Blank || expires == Absent || expires == Blank {
      assert WindowAt(c, now) == Inactive;
      var a := c.(firstUsedAt := At(now));
      a := a.(expiresAt := At(now + ttl * SecondsPerHour));
      admin' := Some(a);
      if !saveOk {
        notice := StorageFailed;
      } else {
        saved := Some(a);
        session' := session'.(dlAuth := ExactlyTrue);
        session' := session'.(loginTime := Some(now));
        session' := session'.(passcodeVersion := Some(a.passcodeVersion));
        notice := Activated;
      }
    } else if !expires.At? {
      assert WindowAt(c, now) == Unreadable;
      notice := StateCorrupt;
    } else if now <= expires.seconds {
      assert WindowAt(c, now) == Active;
      session' := session'.(dlAuth := ExactlyTrue);
      session' := session'.(loginTime := Some(now));
      session' := session'.(passcodeVersion := Some(c.passcodeVersion));
      notice := Welcome;
    } else if c.lockedAfterExpire {
      assert WindowAt(c, now) == Expired;
      notice := ExpiredLocked;
    } else {
      assert WindowAt(c, now) == Expired;
      notice := ExpiredUnlocked;
    }
  }

  /**
   * The refusals are tried in this order: missing record, empty input,
   * unset passcode, wrong passcode; none of them changes anything.
   */
  lemma GuardOrder(input: string, admin: Option<Config>, session: Session, now: int, saveOk: bool)
    ensures admin.None? ==> StepLogin(input, admin, session, now, saveOk) == Refuse(admin, session, NotSetUp)
    ensures admin.Some? && input == "" ==>
      StepLogin(input, admin, session, now, saveOk) == Refuse(admin, session, PasscodeRequired)
    ensures admin.Some? && input != "" && StoredPasscode(admin.value) == "" ==>
      StepLogin(input, admin, session, now, saveOk) == Refuse(admin, session, PasscodeUnset)
    ensures admin.Some? && input != "" && StoredPasscode(admin.value) != "" && input != StoredPasscode(admin.value) ==>
      StepLogin(input, admin, session, now, saveOk) == Refuse(admin, session, PasscodeIncorrect)
  {
  }

  /** When the lock flag matters: an expired window refuses the right passcode either way, the flag picks the text. */
  lemma ExpiredRefusesEither(c: Config, session: Session, now: int, saveOk: bool)
    requires StoredPasscode(c) != "" && WindowAt(c, now) == Expired
    ensures StepLogin(StoredPasscode(c), Some(c), session, now, saveOk)
         == Refuse(Some(c), session, if c.lockedAfterExpire then ExpiredLocked else ExpiredUnlocked)
    ensures StepLogin(StoredPasscode(c), Some(c.(lockedAfterExpire := !c.lockedAfterExpire)), session, now, saveOk).notice.IsError()
  {
  }

  /** A stored passcode that starts or ends with whitespace can never be matched, since the input is trimmed. */
  lemma PaddedPasscodeUnmatchable(field: Option<string>, c: Config, session: Session, now: int, saveOk: bool)
    requires StoredPasscode(c) != ""
    requires IsTrimChar(StoredPasscode(c)[0]) || IsTrimChar(StoredPasscode(c)[|StoredPasscode(c)| - 1])
    ensures var n := StepLogin(InputPasscode(field), Some(c), session, now, saveOk).notice;
      n == PasscodeRequired || n == PasscodeIncorrect
  {
    var input := InputPasscode(field);
    if input != "" {
      Unpadded(input, StoredPasscode(c));
    }
  }

  /** A string without leading or trailing trim characters differs from one that has them. */
  lemma Unpadded(input: string, stored: string)
    requires input != [] && !IsTrimChar(input[0]) && !IsTrimChar(input[|input| - 1])
    requires stored != [] && (IsTrimChar(stored[0]) || IsTrimChar(stored[|stored| - 1]))
    ensures input != stored
  {
  }

  /** A successful login passes the gate, and a later version bump takes that away again. */
  lemma SuccessPassesGate(input: string, admin: Option<Config>, session: Session, now: int, saveOk: bool, v: int)
    requires !StepLogin(input, admin, session, now, saveOk).notice.IsError()
    ensures var r := StepLogin(input, admin, session, now, saveOk);
      LoggedIn(r.admin, r.session)
      && (v != admin.value.passcodeVersion ==> !LoggedIn(Some(r.admin.value.(passcodeVersion := v)), r.session))
  {
  }

  /** One request in a sequence: the candidate, the time and whether the save would succeed. */
  datatype Attempt = Attempt(input: string, at: int, saveOk: bool)

  /**
   * Runs login attempts one request after another. Each request loads what
   * the previous one left on disk (reloading a saved record gives it
   * back unchanged) and keeps the caller's session.
   */
  function Replay(admin: Option<Config>, session: Session, attempts: seq<Attempt>): (Option<Config>, Session)
    decreases |attempts|
  {
    if attempts == [] then (admin, session)
    else
      var a := attempts[0];
      var r := StepLogin(a.input, admin, session, a.at, a.saveOk);
      Replay(if r.saved.Some? then r.saved else admin, r.session, attempts[1..])
  }

  /**
   * Activation happens at most once: once both timestamps are set, no
   * sequence of attempts changes the stored record.
   */
  lemma {:induction false} ActivatedRecordIsFinal(c: Config, session: Session, attempts: seq<Attempt>)
    requires c.firstUsedAt.IsSet() && c.expiresAt.IsSet()
    ensures Replay(Some(c), session, attempts).0 == Some(c)
    decreases |attempts|
  {
    if attempts != [] {
      var a := attempts[0];
      var r := StepLogin(a.input, Some(c), session, a.at, a.saveOk);
      assert r.saved.None?;
      ActivatedRecordIsFinal(c, r.session, attempts[1..]);
    }
  }

  /**
   * After expiry, retrying any number of times at any later times never
   * signs the caller in and never changes the record or the session.
   */
  lemma {:induction false} ExpiredForever(c: Config, session: Session, attempts: seq<Attempt>, t: int)
    requires WindowAt(c, t) == Expired
    requires forall i :: 0 <= i < |attempts| ==> attempts[i].at >= t
    ensures Replay(Some(c), session, attempts) == (Some(c), session)
    decreases |attempts|
  {
    if attempts != [] {
      var a := attempts[0];
      ExpiredStaysExpired(c, t, a.at);
      var r := StepLogin(a.input, Some(c), session, a.at, a.saveOk);
      assert r.saved.None? && r.session == session;
      ExpiredForever(c, session, attempts[1..], t);
    }
  }

  /**
   * First use then replay: activation at `t0` saves `expires_at = t0 + ttl`,
   * and logging in again at any time inside that window, from the reloaded
   * file, admits without touching the timestamps.
   */
  lemma ActivateThenReplay(c: Config, s0: Session, s1: Session, t0: int, t1: int, saveOk: bool)
    requires StoredPasscode(c) != "" && WindowAt(c, t0) == Inactive
    requires t0 <= t1 <= t0 + c.ttlHours * SecondsPerHour
    ensures var r0 := StepLogin(StoredPasscode(c), Some(c), s0, t0, true);
      r0.notice == Activated && r0.saved.Some?
      && r0.saved.value.firstUsedAt == At(t0)
      && r0.saved.value.expiresAt == At(t0 + c.ttlHours * SecondsPerHour)
      && var loaded := WithDefaults(ToFile(r0.saved.value));
         var r1 := StepLogin(StoredPasscode(c), Some(loaded), s1, t1, saveOk);
         r1.notice == Welcome && r1.admin == Some(loaded) && r1.saved.None?
         && r1.session == SignedIn(t1, c.passcodeVersion)
  {
    ActivatedWindow(c, t0, t1);
  }
  /**
   * Inside a parseable `expires_at` the exact passcode admits without a
   * save, whatever `ttl_hours` now says and whether or not `first_used_at`
   * parses: only `expires_at` is compared with the clock.
   */
  lemma AdmitsBeforeExpiry(c: Config, s: Session, now: int, saveOk: bool)
    requires StoredPasscode(c) != "" && c.firstUsedAt.IsSet()
    requires c.expiresAt.At? && now <= c.expiresAt.seconds
    ensures StepLogin(StoredPasscode(c), Some(c), s, now, saveOk)
         == LoginResult(Some(c), SignedIn(now, c.passcodeVersion), None, Welcome)
    ensures forall ttl: int, first: Stamp :: first.IsSet() ==>
      StepLogin(StoredPasscode(c), Some(c.(ttlHours := ttl, firstUsedAt := first)), s, now, saveOk).notice == Welcome
  {
    forall ttl: int, first: Stamp | first.IsSet()
      ensures StepLogin(StoredPasscode(c), Some(c.(ttlHours := ttl, firstUsedAt := first)), s, now, saveOk).notice == Welcome
    {
      assert WindowAt(c.(ttlHours := ttl, firstUsedAt := first), now) == Active;
    }
  }
}
