/**
 * One request to the download page, from loading admin.json to the list
 * shown: defaults, an optional login, the session gate, the remaining time
 * and the visible items. Loading, saving, the clock and the session store
 * are supplied as values.
 */
module DownloadPage {
  import opened Wrappers
  import opened AdminConfig
  import opened SessionGate
  import opened Login
  import opened Countdown
  import opened Catalog

  /** The request: a GET, or a POST with its `action` and `user_passcode` fields. */
  datatype Request = Get | Post(action: Option<string>, passcode: Option<string>)

  predicate IsLoginSubmission(q: Request) {
    q.Post? && q.action == Some("login")
  }

  /** What the page is rendered from, and the state the request leaves behind. */
  datatype Page = Page(
    admin: Option<Config>,
    session: Session,
    saved: Option<Config>,
    errors: seq<Notice>,
    messages: seq<Notice>,
    loggedIn: bool,
    remaining: Option<Clock>,
    items: seq<Item>)

  /** admin.json after loading and defaulting; `None` when it is missing, unreadable or empty. */
  function Loaded(file: Option<AdminFile>): (a: Option<Config>)
    ensures a.Some? <==> file.Some?
    // a loaded file is defaulted key by key, as `WithDefaults` states
    ensures file.Some? ==> a == Some(WithDefaults(file.value))
    // the passcode and both timestamps are kept as loaded
    ensures a.Some? ==>
      a.value.userPasscode == file.value.userPasscode
      && a.value.firstUsedAt == file.value.firstUsedAt && a.value.expiresAt == file.value.expiresAt
    // a present, numeric `ttl_hours` and any present lock flag and version are kept as loaded
    ensures a.Some? && file.value.ttlHours.TtlNumeric? ==> a.value.ttlHours == file.value.ttlHours.hours
    ensures a.Some? && file.value.lockedAfterExpire.Some? ==> a.value.lockedAfterExpire == file.value.lockedAfterExpire.value
    ensures a.Some? && file.value.passcodeVersion.Some? ==> a.value.passcodeVersion == file.value.passcodeVersion.value
    // missing or non-numeric keys get their defaults: 5 hours, locked, version 1
    ensures a.Some? && !file.value.ttlHours.TtlNumeric? ==> a.value.ttlHours == 5
    ensures a.Some? && file.value.lockedAfterExpire.None? ==> a.value.lockedAfterExpire
    ensures a.Some? && file.value.passcodeVersion.None? ==> a.value.passcodeVersion == 1
    // the record in memory is what a later save writes and a reload reads back
    ensures a.Some? ==> WithDefaults(ToFile(a.value)) == a.value
  {
    if file.Some? then Some(WithDefaults(file.value)) else None
  }

  /**
   * Loading, defaulting and the optional login: the record and session the
   * rest of the page sees, what was saved, and the notices so far.
   */
  method LoadAndLogin(file: Option<AdminFile>, session: Session, request: Request, now: int, saveOk: bool)
    returns (admin: Option<Config>, session': Session, saved: Option<Config>, errors: seq<Notice>, messages: seq<Notice>)
    ensures !IsLoginSubmission(request) ==>
      admin == Loaded(file) && session' == session && saved.None? && messages == []
      && errors == (if file.None? then [ConfigUnreadable] else [])
    ensures IsLoginSubmission(request) ==>
      var r := StepLogin(InputPasscode(request.passcode), Loaded(file), session, now, saveOk);
      admin == r.admin && session' == r.session && saved == r.saved
      && errors == (if file.None? then [ConfigUnreadable] else []) + (if r.notice.IsError() then [r.notice] else [])
      && messages == (if r.notice.IsError() then [] else [r.notice])
  {
    admin := None;
    errors, messages := [], [];
    if file.None? {
      errors := errors + [ConfigUnreadable];
    } else {
      admin := Some(WithDefaults(file.value));
    }
    assert admin == Loaded(file);
    session', saved := session, None;
    if IsLoginSubmission(request) {
      var notice;
      admin, session', saved, notice := Submit(request.passcode, admin, session, now, saveOk);
      if notice.IsError() {
        errors := errors + [notice];
      } else {
        messages := messages + [notice];
      }
    }
  }

  /**
   * One request. `file` is what loading admin.json gave, `catalog` the
   * `items` of download.json when it loaded as a list, `now` the current
   * time and `saveOk` whether a save would succeed.
   */
  method HandleRequest(file: Option<AdminFile>, catalog: Option<seq<Item>>, session: Session,
                       request: Request, now: int, saveOk: bool) returns (page: Page)
    ensures !IsLoginSubmission(request) ==>
      page.admin == Loaded(file) && page.session == session && page.saved.None? && page.messages == []
      && page.errors == (if file.None? then [ConfigUnreadable] else [])
    ensures IsLoginSubmission(request) ==>
      var r := StepLogin(InputPasscode(request.passcode), Loaded(file), session, now, saveOk);
      page.admin == r.admin && page.session == r.session && page.saved == r.saved
      && page.errors == (if file.None? then [ConfigUnreadable] else []) + (if r.notice.IsError() then [r.notice] else [])
      && page.messages == (if r.notice.IsError() then [] else [r.notice])
    ensures page.loggedIn == LoggedIn(page.admin, page.session)
    ensures page.remaining == (if page.admin.Some? then Remaining(page.loggedIn, page.admin.value, now) else None)
    ensures page.items == (if page.loggedIn && catalog.Some? then Visible(catalog.value) else [])
  {
    var admin, session', saved, errors, messages := LoadAndLogin(file, session, request, now, saveOk);

    var loggedIn := admin.Some? && IsLoggedInToday(session', Some(admin.value.passcodeVersion));

    var remaining: Option<Clock> := None;
    if admin.Some? {
      remaining := Remaining(loggedIn, admin.value, now);
    }

    var items: seq<Item> := [];
    if loggedIn && catalog.Some? {
      items := FilterVisible(catalog.value);
    }
    page := Page(admin, session', saved, errors, messages, loggedIn, remaining, items);
  }
}
