/**
 * Step 1 of `Log::writeLog` (lib/Log.php:119-131): every configured secret,
 * in list order, is replaced by the placeholder in the entry's text.  A
 * structured entry has this done only to its `Message` field, or failing
 * that its `message` field; a plain-string entry has it done to the whole
 * string.
 */
module Redaction {
  import opened LogTypes
  import opened PhpString

  /** The secrets applied one after another, first to last, to one text. */
  function RedactText(secrets: seq<string>, placeholder: string, text: string): string
    decreases |secrets|
  {
    if secrets == [] then text
    else StrReplace(secrets[|secrets| - 1], placeholder, RedactText(secrets[..|secrets| - 1], placeholder, text))
  }

  /** The non-empty secrets of the list, in list order. */
  function NonEmpty(secrets: seq<string>): (r: seq<string>)
    ensures forall s :: s in r <==> s in secrets && s != []
    ensures |r| <= |secrets|
    ensures |secrets| == 1 ==> r == (if secrets[0] == [] then [] else secrets)
    decreases |secrets|
  {
    if secrets == [] then []
    else
      var last := secrets[|secrets| - 1];
      NonEmpty(secrets[..|secrets| - 1]) + (if last == [] then [] else [last])
  }

  /** Filtering distributes over concatenation, so `NonEmpty` keeps the
      non-empty secrets in list order, each as often as it occurs. */
  lemma {:induction false} NonEmptyAppend(a: seq<string>, b: seq<string>)
    ensures NonEmpty(a + b) == NonEmpty(a) + NonEmpty(b)
    decreases |b|
  {
    if b == [] {
      assert a + b == a;
    } else {
      var init := b[..|b| - 1];
      var last := b[|b| - 1];
      assert (a + b)[..|a + b| - 1] == a + init;
      assert (a + b)[|a + b| - 1] == last;
      NonEmptyAppend(a, init);
    }
  }

  /** The placeholder can be inserted without spelling out any secret. */
  predicate Redactable(secrets: seq<string>, placeholder: string)
  {
    placeholder != [] && forall k :: 0 <= k < |secrets| ==> SharesNoChar(secrets[k], placeholder)
  }

  /** No non-empty secret occurs in `text`. */
  predicate Clean(secrets: seq<string>, text: string)
  {
    forall k :: 0 <= k < |secrets| && secrets[k] != [] ==> Free(secrets[k], text)
  }

  /** Empty secrets are no-ops: redacting with the whole list is redacting with
      its non-empty secrets, left to right. */
  lemma {:induction false} RedactTextSkipsEmpty(secrets: seq<string>, placeholder: string, text: string)
    ensures RedactText(secrets, placeholder, text) == RedactText(NonEmpty(secrets), placeholder, text)
    decreases |secrets|
  {
    if secrets != [] {
      var init := secrets[..|secrets| - 1];
      var last := secrets[|secrets| - 1];
      RedactTextSkipsEmpty(init, placeholder, text);
      if last != [] {
        var ne := NonEmpty(init) + [last];
        assert ne[..|ne| - 1] == NonEmpty(init);
      } else {
        assert NonEmpty(secrets) == NonEmpty(init) + [] == NonEmpty(init);
        assert secrets[..|secrets| - 1] == init;
        assert RedactText(secrets, placeholder, text) == StrReplace([], placeholder, RedactText(init, placeholder, text));
      }
    }
  }

  /** A list of empty secrets leaves the text unchanged. */
  lemma {:induction false} EmptySecretsChangeNothing(secrets: seq<string>, placeholder: string, text: string)
    requires forall k :: 0 <= k < |secrets| ==> secrets[k] == []
    ensures RedactText(secrets, placeholder, text) == text
    decreases |secrets|
  {
    if secrets != [] {
      EmptySecretsChangeNothing(secrets[..|secrets| - 1], placeholder, text);
    }
  }

  /** After redaction no non-empty secret occurs in the text. */
  lemma {:induction false} RedactTextIsClean(secrets: seq<string>, placeholder: string, text: string)
    requires Redactable(secrets, placeholder)
    ensures Clean(secrets, RedactText(secrets, placeholder, text))
    decreases |secrets|
  {
    if secrets != [] {
      var n := |secrets| - 1;
      var init := secrets[..n];
      var before := RedactText(init, placeholder, text);
      RedactTextIsClean(init, placeholder, text);
      forall k | 0 <= k < |secrets| && secrets[k] != []
        ensures Free(secrets[k], RedactText(secrets, placeholder, text))
      {
        if k == n {
          ReplaceRemovesSearch(secrets[n], placeholder, before);
        } else {
          assert init[k] == secrets[k];
          ReplacePreservesFree(secrets[n], placeholder, secrets[k], before);
        }
      }
    }
  }

  /** A text that holds no secret comes back unchanged. */
  lemma {:induction false} RedactCleanText(secrets: seq<string>, placeholder: string, text: string)
    requires Clean(secrets, text)
    ensures RedactText(secrets, placeholder, text) == text
    decreases |secrets|
  {
    if secrets != [] {
      var n := |secrets| - 1;
      RedactCleanText(secrets[..n], placeholder, text);
      if secrets[n] != [] {
        ReplaceFreeIsIdentity(secrets[n], placeholder, text);
      }
    }
  }

  /** Redacting a redacted text changes nothing. */
  lemma RedactTextIdempotent(secrets: seq<string>, placeholder: string, text: string)
    requires Redactable(secrets, placeholder)
    ensures RedactText(secrets, placeholder, RedactText(secrets, placeholder, text))
            == RedactText(secrets, placeholder, text)
  {
    RedactTextIsClean(secrets, placeholder, text);
    RedactCleanText(secrets, placeholder, RedactText(secrets, placeholder, text));
  }

  /** Secrets are applied one after another to the text as it stands, so a
      later secret is also replaced inside a placeholder that an earlier one
      inserted: with placeholder "XY", redacting "a" with ["a", "Y"] gives
      "XXY", not "XY". */
  lemma LaterSecretRescansPlaceholder()
    ensures RedactText(["a", "Y"], "XY", "a") == "XXY"
    ensures !Redactable(["a", "Y"], "XY")
  {
    assert ["a", "Y"][..1] == ["a"];
    assert ["a"][..0] == [];
    assert RedactText(["a"], "XY", "a") == StrReplace("a", "XY", "a") == "XY";
    assert StrReplace("Y", "XY", "XY") == "X" + StrReplace("Y", "XY", "Y");
    assert 'Y' in ["a", "Y"][1] && 'Y' in "XY";
  }

  /** `str_replace` on one field value; values that are not strings are not
      modelled and are left as they are. */
  function ReplaceValue(search: string, placeholder: string, v: Value): Value
  {
    match v
    case Text(t) => Text(StrReplace(search, placeholder, t))
    case _ => v
  }

  /** The whole secret list applied to one field value. */
  function RedactValue(secrets: seq<string>, placeholder: string, v: Value): Value
  {
    match v
    case Text(t) => Text(RedactText(secrets, placeholder, t))
    case _ => v
  }

  /**
   * The entry after the redaction loop.  Which field is redacted is decided
   * by key presence (`isset || array_key_exists`), which the loop never
   * changes, so the same field is chosen for every secret.
   */
  function RedactEntry(secrets: seq<string>, placeholder: string, e: Entry): (r: Entry)
    ensures e.Plain? <==> r.Plain?
    ensures e.Plain? ==> r.text == RedactText(secrets, placeholder, e.text)
    ensures e.Structured? ==> r.fields.Keys == e.fields.Keys
    ensures e.Structured? && "Message" in e.fields ==>
              r.fields["Message"] == RedactValue(secrets, placeholder, e.fields["Message"]) &&
              forall k :: k in e.fields && k != "Message" ==> r.fields[k] == e.fields[k]
    ensures e.Structured? && "Message" !in e.fields && "message" in e.fields ==>
              r.fields["message"] == RedactValue(secrets, placeholder, e.fields["message"]) &&
              forall k :: k in e.fields && k != "message" ==> r.fields[k] == e.fields[k]
    ensures e.Structured? && "Message" !in e.fields && "message" !in e.fields ==> r == e
  {
    match e
    case Plain(text) => Plain(RedactText(secrets, placeholder, text))
    case Structured(fields) =>
      if "Message" in fields then
        Structured(fields["Message" := RedactValue(secrets, placeholder, fields["Message"])])
      else if "message" in fields then
        Structured(fields["message" := RedactValue(secrets, placeholder, fields["message"])])
      else e
  }

  /** The text redaction acts on: the plain string, or the chosen field when it
      holds a string. */
  function RedactedText(e: Entry): Option<string>
  {
    match e
    case Plain(text) => Some(text)
    case Structured(fields) =>
      if "Message" in fields then (if fields["Message"].Text? then Some(fields["Message"].text) else None)
      else if "message" in fields then (if fields["message"].Text? then Some(fields["message"].text) else None)
      else None
  }

  /** After redaction the text that was redacted holds no non-empty secret. */
  lemma RedactEntryIsClean(secrets: seq<string>, placeholder: string, e: Entry)
    requires Redactable(secrets, placeholder)
    ensures RedactedText(e).Some? <==> RedactedText(RedactEntry(secrets, placeholder, e)).Some?
    ensures RedactedText(e).Some? ==> Clean(secrets, RedactedText(RedactEntry(secrets, placeholder, e)).value)
  {
    if RedactedText(e).Some? {
      RedactTextIsClean(secrets, placeholder, RedactedText(e).value);
    }
  }

  /** Redacting an entry twice is redacting it once. */
  lemma RedactEntryIdempotent(secrets: seq<string>, placeholder: string, e: Entry)
    requires Redactable(secrets, placeholder)
    ensures RedactEntry(secrets, placeholder, RedactEntry(secrets, placeholder, e))
            == RedactEntry(secrets, placeholder, e)
  {
    var once := RedactEntry(secrets, placeholder, e);
    if RedactedText(e).Some? {
      RedactTextIdempotent(secrets, placeholder, RedactedText(e).value);
    }
    match e
    case Plain(_) =>
    case Structured(fields) =>
      if "Message" in fields {
        assert once.fields["Message" := RedactValue(secrets, placeholder, once.fields["Message"])] == once.fields;
      } else if "message" in fields {
        assert once.fields["message" := RedactValue(secrets, placeholder, once.fields["message"])] == once.fields;
      }
  }

  /**
   * The loop of lib/Log.php:119-131: for each secret in turn, the `Message`
   * field, else the `message` field, else the whole plain string is run
   * through `str_replace`.
   */
  method Redact(secrets: seq<string>, placeholder: string, entry: Entry) returns (redacted: Entry)
    ensures redacted == RedactEntry(secrets, placeholder, entry)
  {
    redacted := entry;
    for i := 0 to |secrets|
      invariant redacted == RedactEntry(secrets[..i], placeholder, entry)
    {
      var val := secrets[i];
      assert secrets[..i + 1][..i] == secrets[..i];
      match redacted {
        case Structured(fields) =>
          if "Message" in fields {
            redacted := Structured(fields["Message" := ReplaceValue(val, placeholder, fields["Message"])]);
          } else if "message" in fields {
            redacted := Structured(fields["message" := ReplaceValue(val, placeholder, fields["message"])]);
          }
        case Plain(text) =>
          redacted := Plain(StrReplace(val, placeholder, text));
      }
    }
    assert secrets[..|secrets|] == secrets;
  }
}
