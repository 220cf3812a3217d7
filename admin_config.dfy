/**
 * The admin record of admin.json as the login logic sees it: the raw file
 * as loaded, the defaults filled in at the top of each request, the
 * activation window derived from the two timestamps, and the one-way
 * activation that starts the window.
 */
module AdminConfig {
  import opened Wrappers

  /**
   * A timestamp key of admin.json (`first_used_at`, `expires_at`). Time is
   * in whole seconds; `At` is text that parses in the ISO 8601 form written
   * by `DateTime::format('c')` and read back with `DateTime::ATOM`.
   */
  datatype Stamp =
    | Absent            // key missing or null
    | Blank             // the empty string
    | At(seconds: int)  // a parseable timestamp, in seconds
    | Garbled           // any other value: present and non-empty, but not parseable
  {
    /** The test of the login branch: neither missing/null nor the empty string. */
    predicate IsSet() {
      At? || Garbled?
    }
  }

  /** `ttl_hours` as loaded: missing, a numeric value (given as its `intval`), or something else. */
  datatype TtlField = TtlMissing | TtlNumeric(hours: int) | TtlNonNumeric

  /**
   * admin.json as loaded. `lockedAfterExpire` is the truthiness of the stored
   * value; `passcodeVersion` its `intval`; `userPasscode` its `strval`.
   */
  datatype AdminFile = AdminFile(
    userPasscode: Option<string>,
    ttlHours: TtlField,
    firstUsedAt: Stamp,
    expiresAt: Stamp,
    lockedAfterExpire: Option<bool>,
    passcodeVersion: Option<int>)

  /** The admin record once every defaulted key is present. */
  datatype Config = Config(
    userPasscode: Option<string>,
    ttlHours: int,
    firstUsedAt: Stamp,
    expiresAt: Stamp,
    lockedAfterExpire: bool,
    passcodeVersion: int)

  const DefaultTtlHours: int := 5
  const DefaultLocked: bool := true
  const DefaultVersion: int := 1
  const SecondsPerHour: int := 3600

  /** The default-filling block run on every request whose admin.json loaded. */
  function WithDefaults(f: AdminFile): (c: Config)
    ensures f.ttlHours.TtlNumeric? ==> c.ttlHours == f.ttlHours.hours
    ensures !f.ttlHours.TtlNumeric? ==> c.ttlHours == DefaultTtlHours
    ensures f.lockedAfterExpire.Some? ==> c.lockedAfterExpire == f.lockedAfterExpire.value
    ensures f.lockedAfterExpire.None? ==> c.lockedAfterExpire == DefaultLocked
    ensures f.passcodeVersion.Some? ==> c.passcodeVersion == f.passcodeVersion.value
    ensures f.passcodeVersion.None? ==> c.passcodeVersion == DefaultVersion
    ensures c.userPasscode == f.userPasscode
    ensures c.firstUsedAt == f.firstUsedAt && c.expiresAt == f.expiresAt
  {
    Config(
      f.userPasscode,
      if f.ttlHours.TtlNumeric? then f.ttlHours.hours else DefaultTtlHours,
      f.firstUsedAt,
      f.expiresAt,
      f.lockedAfterExpire.GetOr(DefaultLocked),
      f.passcodeVersion.GetOr(DefaultVersion))
  }

  /** What saving a defaulted record writes: every key present. Reloading it gives the same record back. */
  function ToFile(c: Config): (f: AdminFile)
    ensures WithDefaults(f) == c
    ensures f.ttlHours.TtlNumeric? && f.lockedAfterExpire.Some? && f.passcodeVersion.Some?
  {
    AdminFile(c.userPasscode, TtlNumeric(c.ttlHours), c.firstUsedAt, c.expiresAt,
              Some(c.lockedAfterExpire), Some(c.passcodeVersion))
  }

  /** The stored passcode as compared: `strval` of the key, or '' when it is missing. */
  function StoredPasscode(c: Config): (p: string)
    ensures c.userPasscode.Some? ==> p == c.userPasscode.value
    ensures c.userPasscode.None? ==> p == ""
  {
    c.userPasscode.GetOr("")
  }

  /** The activation states of the shared passcode's validity window. */
  datatype Window =
    | Inactive    // not yet activated: a timestamp is missing or ''
    | Active      // activated and `now <= expires_at`
    | Expired     // activated and `now > expires_at`
    | Unreadable  // activated, but `expires_at` does not parse

  function WindowAt(c: Config, now: int): (w: Window)
    ensures w == Inactive <==> !c.firstUsedAt.IsSet() || !c.expiresAt.IsSet()
    ensures w == Unreadable <==> c.firstUsedAt.IsSet() && c.expiresAt.Garbled?
    ensures w == Active <==> c.firstUsedAt.IsSet() && c.expiresAt.At? && now <= c.expiresAt.seconds
    ensures w == Expired <==> c.firstUsedAt.IsSet() && c.expiresAt.At? && now > c.expiresAt.seconds
  {
    if !c.firstUsedAt.IsSet() || !c.expiresAt.IsSet() then Inactive
    else if c.expiresAt.Garbled? then Unreadable
    else if now <= c.expiresAt.seconds then Active
    else Expired
  }

  /** Expiry is permanent: time moving on never turns an expired window active again. */
  lemma ExpiredStaysExpired(c: Config, t: int, later: int)
    requires WindowAt(c, t) == Expired && t <= later
    ensures WindowAt(c, later) == Expired
  {
  }

  /** Both timestamps present, or both absent: the shape activation always leaves. */
  predicate Paired(c: Config) {
    c.firstUsedAt.IsSet() == c.expiresAt.IsSet()
  }

  /**
   * First successful use: `first_used_at` becomes now and `expires_at` now
   * plus `ttl_hours` hours, overwriting both; nothing else changes.
   */
  function Activate(c: Config, now: int): (a: Config)
    ensures a.firstUsedAt == At(now) && a.expiresAt.At?
    ensures a.expiresAt.seconds - a.firstUsedAt.seconds == c.ttlHours * SecondsPerHour
    ensures a == c.(firstUsedAt := a.firstUsedAt, expiresAt := a.expiresAt)
    ensures Paired(a)
  {
    c.(firstUsedAt := At(now), expiresAt := At(now + c.ttlHours * SecondsPerHour))
  }

  /** An activated window is active for `ttl_hours` hours from activation, inclusive, and expired after. */
  lemma ActivatedWindow(c: Config, now: int, t: int)
    ensures now <= t <= now + c.ttlHours * SecondsPerHour ==> WindowAt(Activate(c, now), t) == Active
    ensures t > now + c.ttlHours * SecondsPerHour ==> WindowAt(Activate(c, now), t) == Expired
  {
  }
}
