# Passcode-gated download page, modelled in Dafny

`download.php` serves a list of download links to callers who know one
shared passcode. The validity window of that passcode starts lazily: the
first correct submission records `first_used_at` and
`expires_at = first_used_at + ttl_hours` in `admin.json`. Later correct
submissions succeed only while `now <= expires_at`, and once the window is
over the passcode is refused until an administrator resets the record. A
successful login writes the session triple `dl_auth`, `login_time`,
`passcode_version`. Each request then asks `is_logged_in_today` whether the
caller is signed in; raising `passcode_version` signs out every session
granted under another version.

This project models that decision logic:

- `wrappers.dfy`, `Wrappers`: `Option`, for a key that is missing or `null`.
- `php_text.dfy`, `PhpText`: PHP's `trim` with its default character list, applied to the submitted passcode.
- `admin_config.dfy`, `AdminConfig`: the record as loaded (`AdminFile`), the defaults filled in on every request (`WithDefaults`), what a save writes (`ToFile`), the activation window (`WindowAt`) and the one-way activation (`Activate`).
- `session_gate.dfy`, `SessionGate`: the session keys and `is_logged_in_today`.
- `login.dfy`, `Login`: the login branch. `StepLogin` is one attempt written as a function; `Submit` and `CheckWindow` carry it out step by step. `Replay` runs attempts one request after another.
- `countdown.dfy`, `Countdown`: the remaining-time display. It also holds the hours formula as the source writes it (see Findings).
- `catalog.dfy`, `Catalog`: the filter that keeps the visible items.
- `download_page.dfy`, `DownloadPage`: one whole request, from loading `admin.json` to the list shown.
- `scenarios.dfy`, `Scenarios`: worked runs on concrete values.

Time is whole seconds. A timestamp key is `Absent` (missing or `null`),
`Blank` (`''`), `At(seconds)` (text that `DateTime::ATOM` parses) or
`Garbled` (present and non-empty, but not parseable). Saving is an oracle
boolean `saveOk`. Loading `admin.json` gives `Option<AdminFile>`, where
`None` also covers an empty array, since PHP treats an empty array as false.
The session, the posted form and the clock are passed in as values.

Consequences of the code as written, all proved in the model:

- The checks run in this order: missing record, empty trimmed input, unset stored passcode, wrong passcode. An empty submission against an unset passcode therefore gets "enter a passcode".
- The input is trimmed but the stored passcode is not. A stored passcode that starts or ends with whitespace can never be matched (`Login.PaddedPasscodeUnmatchable`).
- An expired window refuses the right passcode whether or not `locked_after_expire` is set. The flag only picks the message, and expiry never restarts the window.
- If the activation save fails, the request's in-memory record still holds the new timestamps (they are assigned before the save), but nothing is written and the session is untouched.
- `ttl_hours` is not required to be positive. A zero or negative value gives a window that ends at or before activation.
- The gate compares versions only when the session carries one, and it never looks at `expires_at`. A session granted inside the window stays signed in after expiry.

## Model

| member | source | states |
|---|---|---|
| `PhpText.TrimStart` | download.php:71 | the result is a suffix of the input, does not start with a trim character, and everything dropped is a trim character |
| `PhpText.TrimEnd` | download.php:71 | the result is a prefix of the input, does not end with a trim character, and everything dropped is a trim character |
| `PhpText.Trim` | download.php:71 | the trimmed passcode neither starts nor ends with space, tab, newline, carriage return, NUL or vertical tab |
| `PhpText.TrimSpan` | download.php:71 | trimming keeps one contiguous slice `s[i..j]`, and only trim characters lie outside it |
| `PhpText.TrimIdempotent` | download.php:71 | trimming twice is trimming once |
| `PhpText.TrimEmptyIff` | download.php:71-76 | the trimmed input is empty, so "enter a passcode" is reported, exactly when the raw field holds only trim characters |
| `PhpText.TrimStripsPadding` | download.php:71 | any whitespace padding around a passcode is exactly what trimming removes |
| `AdminConfig.WithDefaults` | download.php:63-67 | a missing or non-numeric `ttl_hours` becomes 5, a missing `locked_after_expire` becomes true, a missing `passcode_version` becomes 1; present values and all other keys are kept |
| `AdminConfig.ToFile` | download.php:101 | the saved record carries every defaulted key, and defaulting it again on the next load gives the same record back |
| `AdminConfig.StoredPasscode` | download.php:78 | the stored passcode is the key's value when present and '' when it is missing |
| `AdminConfig.WindowAt` | download.php:91-115 | the window is inactive exactly when either timestamp is missing or ''; unreadable exactly when both are set and `expires_at` does not parse; active exactly when it parses and `now <= expires_at`; expired exactly when it parses and `now > expires_at` |
| `AdminConfig.Activate` | download.php:91-99 | activation overwrites both timestamps with `first_used_at = now` and `expires_at - first_used_at = ttl_hours * 3600`, leaves them paired, and changes no other key |
| `AdminConfig.ActivatedWindow` | download.php:115 | after activation the window is active from `now` through `now + ttl_hours` hours inclusive, and expired after that |
| `AdminConfig.ExpiredStaysExpired` | download.php:115-128 | an expired window is still expired at every later time |
| `SessionGate.SignedIn` | download.php:104-106 | the written session records the login time and passes the gate against exactly the version it was stamped with |
| `SessionGate.LoggedIn` | download.php:136 | without a loaded record the page is never signed in; with one, it is signed in exactly when `dl_auth` is true and the session's version is absent or equals the record's |
| `SessionGate.IsLoggedInToday` | download.php:40-47 | false unless `dl_auth` is exactly true; false when both versions are present and differ; true otherwise |
| `SessionGate.SignedInPasses` | download.php:104-106 | the triple a login writes passes the gate against the same record |
| `SessionGate.VersionBumpSignsOut` | download.php:43-45 | a record whose `passcode_version` differs from the session's signs that session out |
| `SessionGate.GateIgnoresWindow` | download.php:40-47 | the gate's answer does not depend on `first_used_at` or `expires_at` |
| `Login.StepLogin` | download.php:73-130 | a refusal writes neither session nor file, and only a failed save changes the in-memory record; success needs the exact non-empty stored passcode and writes the session triple; only activation saves, and only from an inactive window; a login inside the window changes nothing; expired and unreadable windows fail closed. Conversely, the exact non-empty stored passcode is admitted with `Welcome` and the session triple, and nothing saved, in an active window; activates the window in an inactive one, reporting `Activated` with a save and the session triple when the save succeeds and `StorageFailed` with neither when it fails; gets `StateCorrupt` when `expires_at` does not parse; and gets the locked or unlocked expiry message, as the flag says, once expired |
| `Login.InputPasscode` | download.php:71 | the candidate is '' when the field is missing and otherwise the field passed through `Trim` (the one slice `PhpText.TrimSpan` describes); it is empty exactly when the field is missing or holds only trim characters, and a non-empty candidate neither starts nor ends with a trim character |
| `Login.AdmitsBeforeExpiry` | download.php:111-120 | with both timestamps set and a parseable `expires_at` not yet passed, the exact passcode is admitted without a save, whatever `ttl_hours` and `first_used_at` hold |
| `Login.Submit` | download.php:70-133 | the step-by-step login branch yields exactly `StepLogin` on the trimmed field |
| `Login.CheckWindow` | download.php:84-130 | after a match, the step-by-step window check (activate, admit, corrupt, expired locked or unlocked) yields exactly `StepLogin` |
| `Login.GuardOrder` | download.php:73-82 | missing record, empty input, unset passcode and wrong passcode are refused in that order, and none of them changes anything |
| `Login.ExpiredRefusesEither` | download.php:121-128 | an expired window refuses the correct passcode with or without the lock flag; the flag selects only the message |
| `Login.PaddedPasscodeUnmatchable` | download.php:78-82 | a stored passcode with leading or trailing whitespace is never matched by any submission |
| `Login.SuccessPassesGate` | download.php:104-106 | after any successful login the gate admits the session, and a version bump takes that away |
| `Login.ActivatedRecordIsFinal` | download.php:91 | once both timestamps are set, no sequence of attempts changes the stored record, so activation happens at most once |
| `Login.ExpiredForever` | download.php:115-128 | after expiry, any number of later attempts leave record and session unchanged and never sign in |
| `Login.ActivateThenReplay` | download.php:91-120 | first use saves `expires_at = t0 + ttl`; logging in again inside the window from the reloaded file admits without saving or touching the timestamps |
| `Countdown.SplitSeconds` | download.php:144-147 | hours, minutes and seconds with minutes and seconds below 60 that add up to the given seconds |
| `Countdown.Remaining` | download.php:139-150 | present exactly when signed in, `expires_at` parses and `now <= expires_at`; then `h*3600 + m*60 + s = expires_at - now` with `m, s < 60` |
| `Countdown.RemainingShrinks` | download.php:143 | as time advances the remaining time never grows, and once absent it stays absent |
| `Countdown.ShownClock` | download.php:144-147 | the displayed clock counts only the interval's days, hours, minutes and seconds |
| `Countdown.ShownClockUnderAMonth` | download.php:144-147 | for windows under a month the displayed clock equals `Remaining` |
| `Countdown.ShownClockDropsMonths` | download.php:145 | a 1000-hour window activated at 2025-01-01T00:00:00+08:00 and viewed one second later has the `diff` fields 1 month, 10 days, 15:59:59, is displayed as 255:59:59, and has 999:59:59 left |
| `Catalog.Visible` | download.php:153-160 | every kept item is a visible item of the list |
| `Catalog.VisibleCounts` | download.php:155-159 | each visible item is kept as many times as it occurs, and hidden items are never kept |
| `Catalog.VisibleMembership` | download.php:156 | an item is shown exactly when it is in the list and visible |
| `Catalog.VisibleKeepsOrder` | download.php:155-159 | the kept items are a subsequence of the list, so their relative order is preserved |
| `Catalog.FilterVisible` | download.php:153-160 | the `foreach` loop that appends visible items returns exactly `Visible` of the list |
| `DownloadPage.Loaded` | download.php:54-67 | a record is loaded exactly when the file is, and is then the file defaulted by `WithDefaults`: the passcode, both timestamps and every present, well-typed `ttl_hours`, lock flag and version are kept; a missing or non-numeric `ttl_hours` becomes 5, a missing lock flag true and a missing version 1 |
| `DownloadPage.LoadAndLogin` | download.php:54-133 | an unreadable record adds its error; a non-login request changes nothing; a login request takes record, session, save and one notice from `StepLogin` |
| `DownloadPage.HandleRequest` | download.php:54-160 | the page is signed in exactly when the gate admits the resulting session; remaining time and the list are shown only then, and the list is exactly the visible items |
| `Scenarios.PaddedInputIsTrimmed` | download.php:71 | the field `" abc123\n"` is submitted as `abc123` |
| `Scenarios.ActivateAtT0` | download.php:91-108 | first use at T0 saves `first_used_at = T0` and `expires_at = T0 + 5 h`, and signs in at version 1 |
| `Scenarios.ReplayAnHourLater` | download.php:115-120 | one hour later the same passcode is admitted without any save |
| `Scenarios.MistypeThenLockedOut` | download.php:81-124 | a wrong passcode is refused; six hours after activation the right one is refused as expired and locked |
| `Scenarios.UnlockedStaysExpired` | download.php:121-126 | without the lock flag an expired passcode is still refused |
| `Scenarios.UnsetPasscodeNeverAdmits` | download.php:75-80 | with no stored passcode every submission is refused |
| `Scenarios.FilterExample` | download.php:155-159 | visible, hidden, visible gives the two visible items in order |

## Findings

| source | as written | input that shows it | evidently intended | confidence | as-written member | corrected member |
|---|---|---|---|---|---|---|
| download.php:145 | `$h = $diff->h + $diff->d * 24`; `$diff->d` counts days within a month, and the interval's months and years are dropped | `ttl_hours = 1000`, activated at 2025-01-01T00:00:00+08:00 and viewed one second later: `diff` gives one month, 10 days and 15:59:59, so the page shows 255:59:59 | the total hours left (999:59:59); the `d * 24` term shows that multi-day windows were meant to count fully | not executed; medium | `Countdown.ShownClock` (`Countdown.ShownClockDropsMonths`) | `Countdown.Remaining` |

`DownloadPage.HandleRequest` uses the corrected `Countdown.Remaining`.
`Countdown.ShownClockUnderAMonth` proves that the two agree whenever the
window is shorter than a month.

## Left out

- `load_json_assoc` and `save_json_assoc` (file reading, JSON decoding, `flock`, write to a temporary file and `rename`): loading is an `Option<AdminFile>` or an optional item list, and saving is the boolean `saveOk`. A failed save leaves the file as it was.
- `session_start` and the `$_SESSION`, `$_POST` and `$_SERVER` superglobals: the session and the request are explicit values. Session keys other than the three the login writes are not modelled.
- `now_iso`, `DateTime` formatting and parsing (`'c'`, `DateTime::ATOM`, the ISO 8601 / RFC 3339 section 5.6 date-time form) and the `Asia/Taipei` zone: times are whole seconds, and a parse failure is the `Garbled` variant. Sub-second precision is not modelled.
- The source reads the clock more than once per request (the login, `now_iso`, the remaining-time block). The model uses one `now`, so a second boundary between those readings is not modelled.
- `DateTime::diff` itself, which needs calendar arithmetic: `Countdown.ShownClock` takes the fields of the resulting `DateInterval` as given.
- `Countdown.Remaining`: states the intended whole-hours countdown, which differs from the source's display for windows of a month or more (see Findings).
- The loose PHP typing of JSON values: `is_numeric`/`intval` on `ttl_hours` is given as the classification `TtlNumeric(intval)` or `TtlNonNumeric`. `strval` of the stored passcode, `intval` of the version and the truthiness of `locked_after_expire` and `visible` are given as their results. Non-string scalar timestamps count as `Garbled`.
- 64-bit integer overflow in `ttl_hours * 3600` and in timestamps: integers are unbounded.
- The `sprintf('%02d:%02d:%02d')` text of the remaining time, `html_escape`, and all HTML and CSS output. The fixed "5 hours" wording of the activation message is display text.
- Array-valued inputs: under PHP 8 an array in `expires_at` makes `DateTime::createFromFormat` (download.php:111, 142) throw a `TypeError` before the corrupt-state error, and an array-valued `user_passcode` form field makes `trim` (download.php:71) throw. The model takes timestamps as `Stamp` and the field as a string, so these crash paths are not modelled.
- Two callers activating the passcode at the same moment race on `admin.json`: concurrency is outside this sequential model.
