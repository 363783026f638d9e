/**
 * Step 3 of `Log::writeLog` (lib/Log.php:152-188): the frames of the entry's
 * trace are scanned in order and the first frame that qualifies decides.  A
 * frame whose source line holds `@` silences the entry; otherwise a frame
 * whose file starts with an allow-listed prefix (tried in list order) has
 * the entry audited.  Later frames are not looked at.
 */
module TraceClassifier {
  import opened LogTypes
  import opened PhpString

  /** What the scan decides; silencing and auditing exclude each other. */
  datatype Outcome = Silenced | Audited(prefix: string) | NoMatch

  /**
   * The `@` test of lib/Log.php:157-166.  It is made only for a frame that has
   * both `file` and `line`; `lineAt(file, n)` stands for line `n` of the file
   * as `file($file)[$n - 1]` reads it.
   */
  predicate HasMarker(fr: Frame, lineAt: (string, int) -> string)
  {
    fr.file.Some? && fr.line.Some? && '@' in lineAt(fr.file.value, fr.line.value)
  }

  /** The first prefix, in list order, that `file` starts with. */
  function FirstPrefix(file: string, prefixes: seq<string>): (r: Option<string>)
    ensures r.Some? ==> r.value in prefixes && StartsWith(file, r.value)
    ensures r.None? <==> forall i :: 0 <= i < |prefixes| ==> !StartsWith(file, prefixes[i])
  {
    if prefixes == [] then None
    else if StartsWith(file, prefixes[0]) then Some(prefixes[0])
    else FirstPrefix(file, prefixes[1..])
  }

  /** A prefix that matches with no earlier prefix matching is the one chosen. */
  lemma {:induction false} FirstPrefixIsFirstMatch(file: string, prefixes: seq<string>, i: nat)
    requires i < |prefixes| && StartsWith(file, prefixes[i])
    requires forall j :: 0 <= j < i ==> !StartsWith(file, prefixes[j])
    ensures FirstPrefix(file, prefixes) == Some(prefixes[i])
  {
    if i > 0 {
      assert forall j :: 0 <= j < i - 1 ==> prefixes[1..][j] == prefixes[j + 1];
      FirstPrefixIsFirstMatch(file, prefixes[1..], i - 1);
    }
  }

  /**
   * What one frame decides, if anything: the `@` test comes first; a frame
   * lacking `file` or `line` skips it but is still prefix-tested when it has
   * `file`.
   */
  function Decide(fr: Frame, prefixes: seq<string>, lineAt: (string, int) -> string): (r: Option<Outcome>)
    ensures r == Some(Silenced) <==> HasMarker(fr, lineAt)
    ensures r.None? <==> !HasMarker(fr, lineAt) && (fr.file.None? || FirstPrefix(fr.file.value, prefixes).None?)
    ensures r.Some? && r.value != Silenced ==>
              fr.file.Some? && r.value == Audited(FirstPrefix(fr.file.value, prefixes).value)
    ensures r != Some(NoMatch)
  {
    if HasMarker(fr, lineAt) then Some(Silenced)
    else if fr.file.Some? && FirstPrefix(fr.file.value, prefixes).Some? then
      Some(Audited(FirstPrefix(fr.file.value, prefixes).value))
    else None
  }

  /** The outcome of the scan: the decision of the first frame that decides. */
  function Classify(frames: seq<Frame>, prefixes: seq<string>, lineAt: (string, int) -> string): (o: Outcome)
    ensures o.Audited? ==> o.prefix in prefixes
  {
    if frames == [] then NoMatch
    else
      match Decide(frames[0], prefixes, lineAt)
      case Some(o) => o
      case None => Classify(frames[1..], prefixes, lineAt)
  }

  /** The first deciding frame decides the outcome. */
  lemma {:induction false} ClassifyFirstDecisive(frames: seq<Frame>, prefixes: seq<string>,
                                                 lineAt: (string, int) -> string, k: nat)
    requires k < |frames| && Decide(frames[k], prefixes, lineAt).Some?
    requires forall j :: 0 <= j < k ==> Decide(frames[j], prefixes, lineAt).None?
    ensures Classify(frames, prefixes, lineAt) == Decide(frames[k], prefixes, lineAt).value
  {
    if k > 0 {
      assert forall j :: 0 <= j < k - 1 ==> frames[1..][j] == frames[j + 1];
      ClassifyFirstDecisive(frames[1..], prefixes, lineAt, k - 1);
    }
  }

  /** Every outcome other than NoMatch comes from a frame that decides it, with
      no deciding frame before it. */
  lemma {:induction false} DecidingFrame(frames: seq<Frame>, prefixes: seq<string>,
                                         lineAt: (string, int) -> string) returns (k: nat)
    requires Classify(frames, prefixes, lineAt) != NoMatch
    ensures k < |frames| && Decide(frames[k], prefixes, lineAt) == Some(Classify(frames, prefixes, lineAt))
    ensures forall j :: 0 <= j < k ==> Decide(frames[j], prefixes, lineAt).None?
  {
    if Decide(frames[0], prefixes, lineAt).Some? {
      k := 0;
    } else {
      var k' := DecidingFrame(frames[1..], prefixes, lineAt);
      k := k' + 1;
      assert forall j :: 1 <= j < k ==> frames[j] == frames[1..][j - 1];
    }
  }

  /** NoMatch exactly when no frame decides; in particular an empty trace. */
  lemma {:induction false} ClassifyNoMatch(frames: seq<Frame>, prefixes: seq<string>,
                                           lineAt: (string, int) -> string)
    ensures Classify(frames, prefixes, lineAt) == NoMatch <==>
            forall j :: 0 <= j < |frames| ==> Decide(frames[j], prefixes, lineAt).None?
  {
    if frames != [] {
      ClassifyNoMatch(frames[1..], prefixes, lineAt);
      assert forall j :: 1 <= j < |frames| ==> frames[j] == frames[1..][j - 1];
    }
  }

  /** Once a prefix of the trace has decided, later frames are not examined. */
  lemma {:induction false} ClassifyIgnoresLaterFrames(before: seq<Frame>, after: seq<Frame>,
                                                      prefixes: seq<string>, lineAt: (string, int) -> string)
    requires Classify(before, prefixes, lineAt) != NoMatch
    ensures Classify(before + after, prefixes, lineAt) == Classify(before, prefixes, lineAt)
  {
    if Decide(before[0], prefixes, lineAt).None? {
      assert (before + after)[1..] == before[1..] + after;
      ClassifyIgnoresLaterFrames(before[1..], after, prefixes, lineAt);
    }
  }

  /**
   * The nested loops of lib/Log.php:155-187: per frame, the `@` test on its
   * source line, then the prefixes in order; `$silence` and `$break` end the
   * scan.
   */
  method ScanTrace(frames: seq<Frame>, prefixes: seq<string>, lineAt: (string, int) -> string)
    returns (outcome: Outcome)
    ensures outcome == Classify(frames, prefixes, lineAt)
  {
    outcome := NoMatch;
    var k := 0;
    while k < |frames|
      invariant 0 <= k <= |frames|
      invariant outcome == NoMatch
      invariant Classify(frames, prefixes, lineAt) == Classify(frames[k..], prefixes, lineAt)
    {
      var tr := frames[k];
      if tr.file.Some? && tr.line.Some? {
        var line := lineAt(tr.file.value, tr.line.value);
        if '@' in line {
          outcome := Silenced;
          break;
        }
      }
      var matched := false;
      var j := 0;
      while j < |prefixes|
        invariant 0 <= j <= |prefixes|
        invariant forall q :: 0 <= q < j ==> !(tr.file.Some? && StartsWith(tr.file.value, prefixes[q]))
      {
        if tr.file.Some? {
          if StartsWith(tr.file.value, prefixes[j]) {
            FirstPrefixIsFirstMatch(tr.file.value, prefixes, j);
            outcome := Audited(prefixes[j]);
            matched := true;
            break;
          }
        }
        j := j + 1;
      }
      if matched {
        break;
      }
      assert frames[k..][1..] == frames[k + 1..];
      k := k + 1;
    }
  }
}
