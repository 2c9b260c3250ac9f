# Chinese Only Registration — a Dafny model

The Chinese Only Registration WordPress plugin only lets usernames made of
Chinese characters register. Its core is one check, `is_chinese_only`. The
check trims the name and treats a PHP-empty result as a failure. Otherwise it
matches the name against `/^[\x{4e00}-\x{9fff}]+$/u`. The plugin's hook
handlers act on the check's answer in two ways:

- three handlers add or remove error codes on the host's error object
  (`WP_Error`): `registration_errors`, `admin_user_profile_update_errors` and
  `intercept_registration`;
- three handlers work on the login name: `pre_user_login_validation` and
  `pre_insert_user_data` put a placeholder login in place of a failing one,
  and `custom_sanitize_user` hands back the name it was given.

The model has six modules, one per file:

- `Wrappers` (`wrappers.dfy`): `Option`, for `isset($x) ? $x : $default`.
- `PhpRuntime` (`php_runtime.dfy`): PHP's `trim` with its default character
  list, `empty()` on a string, and the decimal form of an integer that
  `'…' . time()` produces. A string is a `seq<int>` of code points.
- `ChinesePattern` (`chinese_pattern.dfy`): the regular expression run the way
  PCRE runs it. `^` anchors at the start, the greedy class run comes next, and
  `$` is tried after backing off one code point at a time. PCRE's `$` without
  the `D` modifier also matches just before a final newline; a parameter
  switches to the `D` behaviour.
- `WpError` (`wp_error.dfy`): the error object as a class holding
  `map<string, seq<string>>`. `Add` appends a message to its code's list and
  `Remove` drops the code.
- `ChineseOnlyRegistration` (`chinese_only_registration.dfy`): the check and
  the six handlers as the code has them. A handler that changes `$errors` is a
  method that modifies the error object. It is tied to a function on the error
  map, and that function's contract states what the handler does.
- `Corrected` (`corrected.dfy`): the check with `$` anchored at the very end,
  and a placeholder that passes the check (see Findings).

Environment reads are parameters. `$_POST['user_login']` is an
`Option<seq<int>>`, and `time()` is a `nat` called `now`.

Where the plugin's own text and its code disagree, the model follows the code.
The description in the plugin header (line 5) allows only Chinese characters.
The options page (lines 297-306) lists U+4E00..U+9FFF as the only range. The
browser check at line 141 is, by the comment at line 140, the same regular
expression as the server's, and it rejects a trailing newline. Together these
describe the non-empty strings of code points in U+4E00..U+9FFF. The PHP
code, through PCRE's `$`, also accepts such a string followed by one `"\n"`.
`ChineseOnlyRegistration.IsChineseOnly` models the code, and
`Corrected.IsChineseOnly` is the predicate the plugin's text describes.

## Model

| member | source | states |
|---|---|---|
| `PhpRuntime.TrimStart` | chinese-only-registration.php:65 | the leading half of `trim`; stated by `PhpRuntime.TrimStartSpec` |
| `PhpRuntime.TrimEnd` | chinese-only-registration.php:65 | the trailing half of `trim`; stated by `PhpRuntime.TrimEndSpec` |
| `PhpRuntime.Trim` | chinese-only-registration.php:65 | `trim` with PHP's default characters; stated by `PhpRuntime.TrimEmptyIffBlank` and `PhpRuntime.TrimKeepsFirst` |
| `PhpRuntime.PhpEmpty` | chinese-only-registration.php:65 | `empty()` on a string, true for `""` and `"0"` (also used at lines 84, 117 and 209); its consequences are stated by `ChineseOnlyRegistration.IsChineseOnlyIsPregMatch` and the `*Outcome` functions |
| `PhpRuntime.TrimStartSpec` | chinese-only-registration.php:65 | the leading half of `trim` keeps a suffix of the string, drops only trim characters (space, tab, LF, CR, NUL, VT), and stops at the first other character |
| `PhpRuntime.TrimEndSpec` | chinese-only-registration.php:65 | the trailing half of `trim` keeps a prefix, drops only trim characters, and stops at the last other character |
| `PhpRuntime.TrimEmptyIffBlank` | chinese-only-registration.php:65 | `trim(s)` is empty exactly when every character of `s` is a trim character |
| `PhpRuntime.TrimKeepsFirst` | chinese-only-registration.php:65 | a string whose first character is not a trim character keeps that character at the front through `trim` |
| `PhpRuntime.DecimalDigits` | chinese-only-registration.php:163 | the string PHP makes of `time()` is at least one character long, is all ASCII digits, and has no leading zero unless it is `0` |
| `PhpRuntime.DecimalRoundTrip` | chinese-only-registration.php:163 | reading the digits back gives the timestamp, so different times give different digit strings |
| `ChinesePattern.DollarAt` | chinese-only-registration.php:71 | where PCRE's `$` matches, with and without `D`; stated by `ChinesePattern.PregMatchShape` |
| `ChinesePattern.Backtrack` | chinese-only-registration.php:71 | PCRE backing off the greedy run; stated by `ChinesePattern.BacktrackSpec` |
| `ChinesePattern.PregMatch` | chinese-only-registration.php:71-73 | `preg_match` of the pattern; stated by `ChinesePattern.PregMatchIsLanguage`, `ChinesePattern.NoBacktrackNeeded` and `ChinesePattern.PregMatchShape` |
| `ChinesePattern.GreedyRun` | chinese-only-registration.php:71 | the greedy `[\x{4e00}-\x{9fff}]+` never consumes more than the subject |
| `ChinesePattern.GreedyRunSpec` | chinese-only-registration.php:71 | the greedy run is all class code points and ends at the end of the subject or just before a non-class code point |
| `ChinesePattern.BacktrackSpec` | chinese-only-registration.php:71 | backing off from `k` succeeds exactly when `$` holds after some length from 1 to `k` |
| `ChinesePattern.RunWithinGreedy` | chinese-only-registration.php:71 | every class run at the start of the subject is no longer than the greedy run |
| `ChinesePattern.PregMatchIsLanguage` | chinese-only-registration.php:71-73 | `preg_match` is true exactly on the pattern's language: non-empty class runs at offset 0 that `$` can follow |
| `ChinesePattern.NoBacktrackNeeded` | chinese-only-registration.php:71-73 | backing off never helps: a match happens exactly when `$` holds right after the whole greedy run |
| `ChinesePattern.PregMatchShape` | chinese-only-registration.php:71-73 | a match is one or more class code points, followed by one final `"\n"` only without the `D` modifier; both directions |
| `WpError.WithAdded` | chinese-only-registration.php:90-92 | `add(code, msg)` makes `code` present with `msg` appended to its messages and leaves every other code as it was |
| `WpError.WithRemoved` | chinese-only-registration.php:98-100 | `remove` of the given codes makes them absent and leaves every other code as it was |
| `WpError.ErrorCollection.Add` | chinese-only-registration.php:90-92 | the object's new map is `WithAdded` of its old map |
| `WpError.ErrorCollection.Remove` | chinese-only-registration.php:98-100 | the object's new map is `WithRemoved` of its old map and the one code |
| `ChineseOnlyRegistration.IsChineseOnly` | chinese-only-registration.php:63-74 | `is_chinese_only` as written; stated by `ChineseOnlyRegistration.IsChineseOnlyShape` and the lemmas below it |
| `ChineseOnlyRegistration.IsChineseOnlyRejectsBlank` | chinese-only-registration.php:65-67 | the empty string and every string made only of trim characters fail the check |
| `ChineseOnlyRegistration.IsChineseOnlyIsPregMatch` | chinese-only-registration.php:63-74 | the trim-and-empty guard never changes the answer: the check equals the pattern match, since a match starts with a non-blank code point other than `0` |
| `ChineseOnlyRegistration.IsChineseOnlyShape` | chinese-only-registration.php:71-73 | the check holds exactly for one or more code points in U+4E00..U+9FFF, optionally followed by one final `"\n"` |
| `ChineseOnlyRegistration.IsChineseOnlyWithoutNewline` | chinese-only-registration.php:71-73 | for a string that does not end in `"\n"`, the check holds exactly when the string is non-empty and all in U+4E00..U+9FFF |
| `ChineseOnlyRegistration.ClassRunAccepted` | chinese-only-registration.php:71-73 | every non-empty string of code points in U+4E00..U+9FFF passes the check |
| `ChineseOnlyRegistration.ZhangSanAccepted` | chinese-only-registration.php:63-74 | "张三" passes the check |
| `ChineseOnlyRegistration.NuoYanAccepted` | chinese-only-registration.php:63-74 | "诺言" passes the check |
| `ChineseOnlyRegistration.RejectedExamples` | chinese-only-registration.php:63-74 | "zhang3", "用户123" and "" fail the check |
| `ChineseOnlyRegistration.IsChineseOnlyAcceptsTrailingNewline` | chinese-only-registration.php:71 | "张三\n" passes the check as written |
| `ChineseOnlyRegistration.RegistrationErrorsOutcome` | chinese-only-registration.php:79-104 | a PHP-empty raw name leaves the errors unchanged; a non-empty failing name gets the message appended under `username_invalid` and no other code changes; a Chinese name loses `username_invalid`, `invalid_username` and `username_exists` and no other code changes |
| `ChineseOnlyRegistration.RegistrationErrors` | chinese-only-registration.php:79-104 | checks the posted login, or the sanitized one when none was posted; the error object's new map is `RegistrationErrorsOutcome` of its old map; the same object is returned |
| `ChineseOnlyRegistration.ProfileUpdateErrorsOutcome` | chinese-only-registration.php:109-122 | on an update nothing changes; on creation `username_invalid` gains the message exactly when the login is not PHP-empty and fails the check; no other code changes |
| `ChineseOnlyRegistration.AdminUserProfileUpdateErrors` | chinese-only-registration.php:109-122 | checks the posted login, or `""` when none was posted; the new map is `ProfileUpdateErrorsOutcome` of the old one |
| `ChineseOnlyRegistration.InterceptRegistrationOutcome` | chinese-only-registration.php:190-202 | `username_invalid` gains the message exactly when the raw name fails the check, an empty name included; no other code changes |
| `ChineseOnlyRegistration.EmptyNameHandlersDisagree` | chinese-only-registration.php:84-86 | on an empty name `intercept_registration` adds `username_invalid` while `registration_errors` changes nothing |
| `ChineseOnlyRegistration.InterceptRegistration` | chinese-only-registration.php:190-202 | the new map is `InterceptRegistrationOutcome` of the old one for the posted or sanitized login; the same object is returned |
| `ChineseOnlyRegistration.RegistrationHandlersTogether` | chinese-only-registration.php:190-202 | the host runs `register_post`, then `registration_errors`, on one error object. Afterwards `username_invalid` is present exactly when the login fails the check. A failing empty login has one message, a failing non-empty login two, and codes outside the three username codes are untouched |
| `ChineseOnlyRegistration.Placeholder` | chinese-only-registration.php:163 | `'用户' . time()` (also at line 181); stated by `ChineseOnlyRegistration.PlaceholderRejected` |
| `ChineseOnlyRegistration.PlaceholderRejected` | chinese-only-registration.php:163 | the placeholder `用户` plus the digits of `time()` fails the check it stands in for |
| `ChineseOnlyRegistration.PreUserLoginValidation` | chinese-only-registration.php:159-167 | a Chinese login is kept and a failing one becomes `'用户' . time()`; the login comes back unchanged exactly when it is Chinese or is itself the placeholder; the result passes the check exactly when the input did |
| `ChineseOnlyRegistration.PreInsertUserData` | chinese-only-registration.php:172-185 | the keys are the same and every entry but `user_login` is unchanged. On an update, or with no `user_login`, the array is unchanged. A Chinese `user_login` is kept, and a failing one becomes the placeholder |
| `ChineseOnlyRegistration.PreInsertKeepsRejected` | chinese-only-registration.php:179-181 | after the filter, `user_login` passes the check exactly when it did before, so a rejected login is never repaired |
| `ChineseOnlyRegistration.CustomSanitizeUser` | chinese-only-registration.php:207-219 | every path returns the `$username` argument unchanged |
| `Corrected.IsChineseOnly` | chinese-only-registration.php:71 | the check with the `D` modifier; stated by `Corrected.IsChineseOnlyIsAllInClass` |
| `Corrected.IsChineseOnlyIsAllInClass` | chinese-only-registration.php:71 | with `$` anchored at the very end, the check holds exactly for non-empty strings of code points in U+4E00..U+9FFF |
| `Corrected.DiffersOnlyOnTrailingNewline` | chinese-only-registration.php:71 | the corrected check implies the original check; they differ exactly on a class run followed by one `"\n"` |
| `Corrected.NumeralFor` | chinese-only-registration.php:181 | each decimal digit maps to a Chinese numeral (零 一 二 三 四 五 六 七 八 九) inside U+4E00..U+9FFF |
| `Corrected.NumeralForInjective` | chinese-only-registration.php:181 | different digits map to different numerals |
| `Corrected.ChineseNumerals` | chinese-only-registration.php:181 | the numerals of `time()` form a non-empty string in U+4E00..U+9FFF, one numeral per decimal digit |
| `Corrected.Placeholder` | chinese-only-registration.php:181 | the corrected placeholder passes both the corrected check and the original one |
| `Corrected.PlaceholderInjective` | chinese-only-registration.php:181 | different timestamps give different corrected placeholders |
| `Corrected.PreUserLoginValidation` | chinese-only-registration.php:159-167 | with both corrections the login always passes the check; a Chinese login is kept and a failing one becomes the corrected placeholder |
| `Corrected.PreInsertUserData` | chinese-only-registration.php:172-185 | with both corrections the keys are the same and only `user_login` can change. On creation the stored `user_login` always passes the check, and a failing one becomes the corrected placeholder. An update, or a Chinese login, leaves the array unchanged |

## Left out

- Hook wiring: the constructor, `init`, the `add_filter`/`add_action` calls, the activation and deactivation hooks, and the `validate_username` override to `__return_true`. These are host dispatch with no behaviour of their own. `RegistrationHandlersTogether` only states the order in which the host runs two of them.
- `load_textdomain` and the `__()` calls. The error message is one constant string, and translation is not modelled.
- `add_frontend_validation` and the script on the options page. They repeat the pattern in JavaScript for the browser. JavaScript's `$` without the `m` flag does not accept a trailing `"\n"`, so browser and server disagree on that one input, as the comment in `chinese_pattern.dfy` notes.
- `chinese_only_registration_action_links`, `chinese_only_registration_admin_menu` and `chinese_only_registration_options_page`. They render admin HTML.
- `time()`, `$_POST` and `$_SERVER`. They are read from the environment, so the model takes the values as parameters: `now`, and the `Option` for `$_POST['user_login']`. `$_SERVER['REQUEST_URI']` is read at line 129 only to decide whether to print the browser script, which is not modelled.
- Input that is not valid UTF-8, where `preg_match` returns `false`. The model works on code points. A posted value that is not a string, such as an array, is out of scope too.
- `WP_Error`'s error data and its `wp_error_added` action. The plugin passes no data.
- Unused host arguments: the `$user` object of `admin_user_profile_update_errors` is dropped. `$user_email`, `$id`, `$raw_username` and `$strict` are kept as parameters the model never reads.

## Findings

| source | as written | input that shows it | evidently intended | confidence | as-written member | corrected member |
|---|---|---|---|---|---|---|
| chinese-only-registration.php:181 (also line 163) | a failing login is replaced by `用户` followed by the ASCII digits of `time()` | any failing `user_login`, e.g. "zhang3" at time 1700000000, becomes "用户1700000000", which `is_chinese_only` rejects | the comment promises a default Chinese username, so the substitute should pass the check | high; not executed | `ChineseOnlyRegistration.PlaceholderRejected` (with `ChineseOnlyRegistration.PreInsertKeepsRejected`) | `Corrected.PreInsertUserData` (with `Corrected.Placeholder`, `Corrected.PreUserLoginValidation`) |
| chinese-only-registration.php:71 | the pattern has no `D` modifier, so `$` also matches just before a final newline | "张三\n" passes the check | only Chinese characters pass, as the plugin's description, its comments and the browser copy of the pattern say | medium; not executed | `ChineseOnlyRegistration.IsChineseOnlyAcceptsTrailingNewline` | `Corrected.IsChineseOnlyIsAllInClass` (with `Corrected.DiffersOnlyOnTrailingNewline`) |

The handlers in `ChineseOnlyRegistration` keep the code's behaviour. The
`Corrected` module restates the two rewriting handlers on the corrected check
and the corrected placeholder. The error-collection handlers only use the
check's answer, so they are not restated.
