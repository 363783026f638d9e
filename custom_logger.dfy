/**
 * The `Log` class of lib/Log.php: its constructor assembles the list of
 * secrets, and `writeLog` runs every entry through redaction, the allow-list,
 * the trace scan and the delivery decision before the host's writer sees it.
 *
 * The host's global lookups become parameters: the system configuration, the
 * user session, the enabled apps, the source-line reader and the configured
 * log level.  The two sinks are sequences on the object: `auditLog` holds the
 * records appended to `custom_apps.log`, `primaryLog` the calls made to the
 * primary writer.
 */
module CustomLogger {
  import opened LogTypes
  import opened Redaction
  import opened PathAllowList
  import opened TraceClassifier

  /** The user session as the constructor sees it; `samlSecret` is what the
      SAML backend's `getCurrentUserSecret()` returns (None for null). */
  datatype Session = Session(loggedIn: bool, backendClassName: string, samlSecret: Option<string>)

  /** One line of the audit file, abstractly: the redacted entry with its app
      and level, and the prefix that matched. */
  datatype AuditRecord = AuditRecord(app: string, entry: Entry, level: int, prefix: string)

  /** One call of the primary writer's `write($app, $entry, $level)`. */
  datatype Delivery = Delivery(app: string, entry: Entry, level: int)

  /** What `writeLog` decides for one entry. */
  datatype Decision = Decision(entry: Entry, outcome: Outcome, write: bool)

  /** `getSystemValue($key)`: the configured string, or '' when unset. */
  function SystemValue(system: map<string, string>, key: string): string
  {
    if key in system then system[key] else ""
  }

  /** PHP truthiness of a string-or-null value: null, '' and '0' are false. */
  predicate Truthy(v: Option<string>)
  {
    v.Some? && v.value != "" && v.value != "0"
  }

  /** The condition of lib/Log.php:101-105. */
  predicate AddsSamlSecret(session: Session)
  {
    session.loggedIn && session.backendClassName == "user_saml" && Truthy(session.samlSecret)
  }

  /** `getSystemValue('loglevel', 2)`. */
  function LogLevel(configured: Option<int>): int
  {
    match configured
    case Some(level) => level
    case None => 2
  }

  /**
   * The delivery condition of lib/Log.php:190 as intended: the entry goes to
   * the primary writer unless it was silenced and the log level is above 1.
   */
  predicate ShouldWrite(silence: bool, loglevel: int)
  {
    !silence || loglevel <= 1
  }

  /**
   * The same condition as written: `OC::$server` inside namespace
   * OCA\CustomLogger names the class OCA\CustomLogger\OC, which does not
   * exist, so the right operand raises whenever it is evaluated, that is
   * whenever the entry was silenced.
   */
  function ShouldWriteAsWritten(silence: bool): (r: Result<bool, Failure>)
    ensures r.Err? <==> silence
    ensures r.Ok? ==> r.value
    ensures forall loglevel :: r.Ok? ==> r.value == ShouldWrite(silence, loglevel)
  {
    if !silence then Ok(true) else Err(ClassNotFound("OCA\\CustomLogger\\OC"))
  }

  /** As written, a silenced entry is lost even at log level 0, where the
      intended condition delivers it. */
  lemma SilencedVerboseEntryLostAsWritten()
    ensures ShouldWriteAsWritten(true) == Err(ClassNotFound("OCA\\CustomLogger\\OC"))
    ensures ShouldWrite(true, 0)
  {
  }

  /**
   * The trace lookup of lib/Log.php:155-156 on the redacted entry.  On a
   * plain string `array_key_exists` raises a TypeError in PHP 8.  A `Trace`
   * value that is not an array gives `foreach` nothing to visit.
   */
  function TraceOf(e: Entry): (r: Result<seq<Frame>, Failure>)
    ensures r.Err? <==> e.Plain?
    ensures e.Structured? && "Trace" !in e.fields ==> r == Ok([])
    ensures e.Structured? && "Trace" in e.fields && e.fields["Trace"].FrameList? ==>
              r == Ok(e.fields["Trace"].frames)
    ensures e.Structured? && "Trace" in e.fields && !e.fields["Trace"].FrameList? ==> r == Ok([])
  {
    match e
    case Plain(_) => Err(EntryNotArray)
    case Structured(fields) =>
      if "Trace" in fields && fields["Trace"].FrameList? then Ok(fields["Trace"].frames) else Ok([])
  }

  /**
   * What `writeLog` does with one entry, as a function of its inputs:
   * redaction, the prefix list, the trace scan and the delivery decision, or
   * the error raised on the way.
   */
  function Filter(secrets: seq<string>, placeholder: string, entry: Entry, apps: seq<App>,
                  lineAt: (string, int) -> string, loglevel: int): (r: Result<Decision, Failure>)
    ensures AllowList(apps).Err? ==> r == Err(AllowList(apps).error)
    ensures AllowList(apps).Ok? && entry.Plain? ==> r == Err(EntryNotArray)
    ensures r.Ok? <==> AllowList(apps).Ok? && entry.Structured?
    ensures r.Ok? ==> r.value.entry == RedactEntry(secrets, placeholder, entry)
    ensures r.Ok? ==> (r.value.write <==> r.value.outcome != Silenced || loglevel <= 1)
    ensures r.Ok? && r.value.outcome.Audited? ==> r.value.write
    ensures r.Ok? && r.value.outcome.Audited? ==> r.value.outcome.prefix in AllowList(apps).value
    ensures r.Ok? && "Trace" !in entry.fields ==> r.value.outcome == NoMatch && r.value.write
  {
    var redacted := RedactEntry(secrets, placeholder, entry);
    match AllowList(apps)
    case Err(e) => Err(e)
    case Ok(prefixes) =>
      match TraceOf(redacted)
      case Err(e) => Err(e)
      case Ok(frames) =>
        var outcome := Classify(frames, prefixes, lineAt);
        Ok(Decision(redacted, outcome, ShouldWrite(outcome == Silenced, loglevel)))
  }

  /** A well-formed entry whose trace has a deciding frame is decided by the
      first such frame, whatever follows it. */
  lemma FilterDecidedByFirstFrame(secrets: seq<string>, placeholder: string, fields: map<string, Value>,
                                  apps: seq<App>, lineAt: (string, int) -> string, loglevel: int, k: nat)
    requires AllowList(apps).Ok? && "Trace" in fields && fields["Trace"].FrameList?
    requires k < |fields["Trace"].frames|
    requires Decide(fields["Trace"].frames[k], AllowList(apps).value, lineAt).Some?
    requires forall j :: 0 <= j < k ==> Decide(fields["Trace"].frames[j], AllowList(apps).value, lineAt).None?
    ensures Filter(secrets, placeholder, Structured(fields), apps, lineAt, loglevel).Ok?
    ensures Filter(secrets, placeholder, Structured(fields), apps, lineAt, loglevel).value.outcome
            == Decide(fields["Trace"].frames[k], AllowList(apps).value, lineAt).value
  {
    var redacted := RedactEntry(secrets, placeholder, Structured(fields));
    assert redacted.fields["Trace"] == fields["Trace"];
    ClassifyFirstDecisive(fields["Trace"].frames, AllowList(apps).value, lineAt, k);
  }

  class Log {
    /** The values redacted from every entry (`$this->sensitive`). */
    var sensitive: seq<string>
    /** The records appended to the audit file, oldest first. */
    var auditLog: seq<AuditRecord>
    /** The calls made to the primary writer, oldest first. */
    var primaryLog: seq<Delivery>

    /**
     * lib/Log.php:95-107: the secret, the password salt and the database
     * password, in that order, then the SAML user secret when the user is
     * logged in through `user_saml` and the secret is truthy.
     */
    constructor (system: map<string, string>, session: Session)
      ensures |sensitive| == (if AddsSamlSecret(session) then 4 else 3)
      ensures sensitive[..3] == [SystemValue(system, "secret"), SystemValue(system, "passwordsalt"),
                                 SystemValue(system, "dbpassword")]
      ensures AddsSamlSecret(session) ==> sensitive[3] == session.samlSecret.value
      ensures auditLog == [] && primaryLog == []
    {
      sensitive := [SystemValue(system, "secret"), SystemValue(system, "passwordsalt"),
                    SystemValue(system, "dbpassword")];
      if session.loggedIn && session.backendClassName == "user_saml" {
        var secret := session.samlSecret;
        if Truthy(secret) {
          sensitive := sensitive + [secret.value];
        }
      }
      auditLog := [];
      primaryLog := [];
    }

    /**
     * `writeLog($app, $entry, $level)` (lib/Log.php:115-193).  Returns the
     * error it raises, if any; on an error neither sink is touched.  Otherwise
     * at most one audit record is appended, carrying the redacted entry and
     * the matching prefix, and the primary writer is called exactly once
     * unless the entry was silenced and the log level is above 1.
     */
    method WriteLog(app: string, entry: Entry, level: int, placeholder: string, apps: seq<App>,
                    lineAt: (string, int) -> string, configuredLogLevel: Option<int>)
      returns (raised: Option<Failure>)
      modifies this`auditLog, this`primaryLog
      ensures var f := Filter(sensitive, placeholder, entry, apps, lineAt, LogLevel(configuredLogLevel));
              && (raised.Some? <==> f.Err?)
              && (f.Err? ==> raised == Some(f.error))
              && auditLog == old(auditLog) +
                   (if f.Ok? && f.value.outcome.Audited?
                    then [AuditRecord(app, f.value.entry, level, f.value.outcome.prefix)] else [])
              && primaryLog == old(primaryLog) +
                   (if f.Ok? && f.value.write then [Delivery(app, f.value.entry, level)] else [])
    {
      var redacted := Redact(sensitive, placeholder, entry);
      var prefixes := BuildPathPrefixes(apps);
      if prefixes.Err? {
        return Some(prefixes.error);
      }
      var trace := TraceOf(redacted);
      if trace.Err? {
        return Some(trace.error);
      }
      var outcome := ScanTrace(trace.value, prefixes.value, lineAt);
      if outcome.Audited? {
        auditLog := auditLog + [AuditRecord(app, redacted, level, outcome.prefix)];
      }
      var silence := outcome == Silenced;
      if !silence || LogLevel(configuredLogLevel) <= 1 {
        primaryLog := primaryLog + [Delivery(app, redacted, level)];
      }
      raised := None;
    }
  }
}
