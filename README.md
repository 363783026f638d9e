# custom_logger log filter — a Dafny model

This project models the log filter of the Nextcloud app `custom_logger`: the class
`OCA\CustomLogger\Log`, which sits in front of the host's log writer. Its constructor
collects the instance's secrets. Its `writeLog` takes every entry through four steps
before the primary writer sees it:

1. **Redaction** (`Redaction`). Each secret, in list order, is replaced by the
   placeholder with PHP `str_replace` semantics (`PhpString.StrReplace`). On a
   structured entry only `Message` is redacted, or `message` when `Message` is
   absent. On a plain-string entry the whole string is redacted.
2. **Allow-list** (`PathAllowList`). The list starts with `/var/www/html/config/`.
   Then comes the path of every enabled app that is not shipped and whose app info
   has no `repository['@value']`, in enabled-app order.
3. **Trace scan** (`TraceClassifier`). The frames are scanned in order, and the
   first frame that qualifies decides the outcome. If its source line contains `@`,
   the entry is silenced. Otherwise, if its file starts with a prefix, the entry is
   audited with the first such prefix in list order.
4. **Delivery** (`CustomLogger.Log.WriteLog`). An audited entry gets one record
   appended to the audit file. The primary writer is called unless the entry was
   silenced and the log level is above 1.

Every loop of the source is a method with loop invariants, proved equal to a
specification function:
- `Redaction.Redact` (the loop over secrets) equals `RedactEntry`
- `PathAllowList.BuildPathPrefixes` (the loop over enabled apps) equals `AllowList`
- `TraceClassifier.ScanTrace` (the nested loops over frames and prefixes) equals `Classify`

The properties are lemmas about those functions. Class `CustomLogger.Log` has no
loop of its own. Its constructor states the secret list it builds directly. Its
`WriteLog` calls the three methods and states the new contents of both sinks in
terms of the specification function `Filter`.

Cleanness and idempotence of redaction are proved under `Redaction.Redactable`: the
placeholder is non-empty and shares no character with any secret. This is a
sufficient condition, not a necessary one. The source does not guarantee it, and a
placeholder made of ordinary letters does not meet it against alphanumeric secrets.
Outside it both properties can fail (`Redaction.LaterSecretRescansPlaceholder`).

The object keeps `sensitive` as a field, as the source does. The two sinks are
fields too: `auditLog` holds one abstract record per line appended to
`custom_apps.log`, and `primaryLog` holds one entry per call of the primary
writer's `write`.

The host's global lookups are explicit inputs:
- the system configuration, as a map from key to string
- the user session and the SAML secret
- the enabled apps, each with its shipped flag, app info and install path
- the configured `loglevel`
- an oracle `lineAt(file, n)` for line `n` of a source file

The placeholder (`ExceptionSerializer::SENSITIVE_VALUE_PLACEHOLDER`) is a parameter.
`ExceptionSerializer` is not part of this model.

The model follows the code as written:
- The trace key is `Trace`, and both the `Message` and `message` spellings are
  handled.
- A frame without `line` but with `file` is still prefix-tested.
- Secrets are applied one after another to the text as it stands. A later secret
  can therefore match inside an earlier placeholder
  (`Redaction.LaterSecretRescansPlaceholder`).
- Three PHP 8 TypeErrors are modelled as the error outcome `Failure`, with neither
  sink touched:
  - a plain-string entry meets `array_key_exists('Trace', …)` at lib/Log.php:155;
  - a non-shipped app's info is null at lib/Log.php:144;
  - a `repository` value is not an array at lib/Log.php:145.
- The one deliberate correction is the delivery condition at lib/Log.php:190. The
  model uses the intended condition, and the code as written is kept beside it (see
  "## Findings"). Two other places are simplified rather than corrected: the
  source-line oracle always returns a string (lib/Log.php:161-163), and a `Message`
  value that is not a string is left unchanged (lib/Log.php:122-125). Both are listed
  under "## Left out".

## Model

| member | source | states |
|---|---|---|
| PhpString.ReplaceRemovesSearch | lib/Log.php:119-131 | for a non-empty secret and a non-empty placeholder with no character in common, `str_replace` leaves no occurrence of the secret |
| PhpString.ReplacePreservesFree | lib/Log.php:119-131 | replacing one secret never creates an occurrence of another non-empty string, provided the placeholder is non-empty and shares no character with that string |
| PhpString.ReplaceFreeIsIdentity | lib/Log.php:119-131 | a text with no occurrence of the search string comes back unchanged |
| PhpString.ReplaceIdempotent | lib/Log.php:122 | applying the same replacement a second time changes nothing, provided the search and the placeholder are non-empty and share no character |
| PhpString.UnreplacedPrefix | lib/Log.php:129 | text that `str_replace` did not insert is copied through from the subject unchanged |
| Redaction.NonEmpty | lib/Log.php:119 | exactly the secrets that are not '', at most as many as the list holds; a one-element list is kept when its secret is non-empty and dropped otherwise |
| Redaction.NonEmptyAppend | lib/Log.php:119 | the non-empty secrets of a concatenation are those of the first part followed by those of the second, so list order and multiplicity are kept |
| Redaction.RedactTextSkipsEmpty | lib/Log.php:119-131 | empty secrets are no-ops: redacting with the list equals redacting with its non-empty secrets, left to right |
| Redaction.EmptySecretsChangeNothing | lib/Log.php:119-131 | when every secret is empty the text is unchanged |
| Redaction.RedactTextIsClean | lib/Log.php:119-131 | after redaction no non-empty secret occurs in the text, provided the placeholder is non-empty and shares no character with any secret |
| Redaction.RedactCleanText | lib/Log.php:119-131 | a text holding no secret comes back unchanged |
| Redaction.RedactTextIdempotent | lib/Log.php:119-131 | redacting a redacted text changes nothing, provided the placeholder is non-empty and shares no character with any secret |
| Redaction.LaterSecretRescansPlaceholder | lib/Log.php:119-131 | secrets are applied sequentially, so a later secret is replaced inside an earlier placeholder; the example is outside the `Redactable` precondition |
| Redaction.RedactEntry | lib/Log.php:119-127 | a plain string is redacted whole; a structured entry keeps its keys; with `Message` present only `Message` changes (so `message` does not); otherwise only `message` changes; with neither key the entry is unchanged |
| Redaction.RedactEntryIsClean | lib/Log.php:119-131 | the text that was redacted holds no non-empty secret afterwards, provided the placeholder is non-empty and shares no character with any secret |
| Redaction.RedactEntryIdempotent | lib/Log.php:119-131 | redacting an entry twice is redacting it once, provided the placeholder is non-empty and shares no character with any secret |
| Redaction.Redact | lib/Log.php:119-131 | the in-place loop over secrets yields `RedactEntry` of the input |
| PathAllowList.CustomAppPaths | lib/Log.php:137-150 | succeeds exactly when no non-shipped app has a malformed info; at most one path per enabled app |
| PathAllowList.AllowList | lib/Log.php:133-150 | succeeds exactly when no non-shipped app has a malformed info; begins with `/var/www/html/config/`; length between 1 and 1 + the number of enabled apps |
| PathAllowList.QualifyingIndices | lib/Log.php:137-149 | the increasing indices of exactly the apps that are not shipped and lack `repository['@value']` |
| PathAllowList.AllowListIsOrderedFilter | lib/Log.php:133-150 | after the first prefix come exactly the paths of the qualifying apps, one per app, in enabled-app order |
| PathAllowList.CustomPathsFollowIndices | lib/Log.php:137-150 | the appended paths are the qualifying apps' paths, index by index |
| PathAllowList.AllowListExcludesShipped | lib/Log.php:138-140 | every prefix after the first is the path of a non-shipped app |
| PathAllowList.CustomAppPathsErrorPersists | lib/Log.php:144-145 | once an app's info raises, later apps do not change the result |
| PathAllowList.AllowListRaisesAtFirstMalformed | lib/Log.php:142-146 | the error raised names the first non-shipped app, in enabled-app order, whose info or repository is not an array |
| PathAllowList.BuildPathPrefixes | lib/Log.php:133-150 | the loop over enabled apps yields `AllowList`, or raises its error |
| TraceClassifier.FirstPrefix | lib/Log.php:170-172 | a prefix that is returned is in the list and starts the file; nothing is returned exactly when no prefix starts the file |
| TraceClassifier.FirstPrefixIsFirstMatch | lib/Log.php:170-183 | the prefix returned is the first one in list order that the file starts with |
| TraceClassifier.Decide | lib/Log.php:157-185 | a frame silences exactly when it has `file` and `line` and its line contains `@`; the `@` test comes before the prefixes; a frame lacking `line` is still prefix-tested; a frame without `file` is never audited |
| TraceClassifier.Classify | lib/Log.php:155-188 | an audited outcome carries a prefix from the list |
| TraceClassifier.ClassifyFirstDecisive | lib/Log.php:155-188 | the first frame that decides determines the outcome |
| TraceClassifier.DecidingFrame | lib/Log.php:155-188 | every Silenced or Audited outcome comes from a frame that decides it, with no deciding frame before it |
| TraceClassifier.ClassifyNoMatch | lib/Log.php:155-188 | no match exactly when no frame decides, in particular for an empty trace |
| TraceClassifier.ClassifyIgnoresLaterFrames | lib/Log.php:165-186 | once the frames scanned so far have decided, appending more frames changes nothing |
| TraceClassifier.ScanTrace | lib/Log.php:152-188 | the nested loops with `$silence` and `$break` yield `Classify` |
| CustomLogger.ShouldWriteAsWritten | lib/Log.php:190 | as written, the condition raises exactly when the entry was silenced, and otherwise delivers |
| CustomLogger.SilencedVerboseEntryLostAsWritten | lib/Log.php:190 | as written, a silenced entry at log level 0 raises, where the intended condition delivers it |
| CustomLogger.TraceOf | lib/Log.php:155-156 | a plain-string entry raises; a structured entry without `Trace`, or whose `Trace` is not an array, has no frames to scan |
| CustomLogger.Filter | lib/Log.php:115-192 | errors come from the allow-list first, then from a plain-string entry; the delivered entry is the redacted one; it is written exactly when not silenced or the log level is at most 1; an audited entry is always written too, with a prefix from the allow-list; an entry without `Trace` is neither silenced nor audited |
| CustomLogger.FilterDecidedByFirstFrame | lib/Log.php:155-188 | for a well-formed entry, the outcome is decided by the first deciding frame of its trace, whatever follows it |
| CustomLogger.Log.constructor | lib/Log.php:95-107 | the secret list is `[secret, passwordsalt, dbpassword]`, with the SAML user secret as a fourth element exactly when the user is logged in via `user_saml` and the secret is truthy |
| CustomLogger.Log.WriteLog | lib/Log.php:115-193 | on an error neither sink changes; otherwise exactly one audit record (redacted entry, app, level, matched prefix) is appended when audited and none otherwise, and exactly one primary write of the redacted entry happens unless it was silenced with log level above 1 |

## Left out

- lib/AppInfo/Application.php: it only registers the service and has empty `register`/`boot` hooks.
- The parent `OC\Log` constructor, the config fallback, the `Normalizer` and the crash reporters (lib/Log.php:79-93): `writeLog` uses none of them except `$this->config`, which it passes to `new ExceptionSerializer` (lib/Log.php:116) only to read the class constant `SENSITIVE_VALUE_PLACEHOLDER`; the placeholder is a parameter instead.
- `Php2Curl`, `logDetailsAsJSON` and the `json_decode`/`json_encode` steps (lib/Log.php:173-177): these are foreign code. The audit record is abstract: app, redacted entry, level and matched prefix. The line in the file does not hold the prefix, but the model keeps it so that the matching prefix can be stated.
- `file_put_contents(..., FILE_APPEND)` (lib/Log.php:180): this is one append to `auditLog`. File semantics, write failures, atomic appends and concurrent writers are not modelled.
- TraceClassifier.HasMarker: `file($file)[$line - 1]` (lib/Log.php:161) is the oracle `lineAt`. The oracle always returns a string, so an unreadable file or a missing line counts as a line without `@`. Under `strict_types` PHP would instead pass `null` to `str_contains` and raise a TypeError. That path is not modelled.
- Redaction.ReplaceValue: `str_replace` on a `Message`/`message` value that is not a string is not modelled, and such a value is left unchanged. PHP would map over an array, or raise for other types under `strict_types`.
- PhpString.StrReplace: PHP strings are byte strings, and `str_replace`, `str_starts_with` and `str_contains` work on bytes. The model's `string` is a sequence of Unicode characters, and `SharesNoChar` is a condition on characters. The two agree on valid UTF-8 text, but byte sequences that are not valid UTF-8 (binary data inside an exception message, say) cannot be represented.
- CustomLogger.SystemValue: configuration values are strings, and an unset key reads as ''. Configuration values of other types are not modelled.
- Trace frames always have array shape, and a present `file` or `line` always holds a string or an integer. A non-array frame, a key that maps to null, and `getAppPath` returning false are not modelled.
- The host's globals are inputs, not lookups: `\OC::$server` config, app manager, `OC_App::getEnabledApps`, user session and SAML backend.
- The request replay descriptor (`Php2Curl::doAll`) is not modelled beyond its place in the audit record.

## Findings

| source | as written | input that shows it | evidently intended | confidence | as-written member | corrected member |
|---|---|---|---|---|---|---|
| lib/Log.php:190 | `OC::$server` is unqualified, and the file has no `use OC;` (lib/AppInfo/Application.php:32 has one). Inside namespace `OCA\CustomLogger` it names the missing class `OCA\CustomLogger\OC`, so the right operand raises whenever the entry was silenced | a trace frame whose source line contains `@`, with `loglevel` 0 | `\OC::$server->getConfig()->getSystemValue('loglevel', 2) <= 1`: a silenced entry is still written at log level 0 or 1 | high, not executed | CustomLogger.ShouldWriteAsWritten, CustomLogger.SilencedVerboseEntryLostAsWritten | CustomLogger.Filter, CustomLogger.Log.WriteLog |
