/**
 * The two PHP string primitives the filter relies on: `str_replace` with a
 * string search and a string subject, and `str_starts_with`.  What the
 * redaction promises rests on the lemmas proved here.
 */
module PhpString {

  /** `needle` occurs in `s` starting at index `i`. */
  predicate OccursAt(s: string, needle: string, i: nat)
  {
    i + |needle| <= |s| && s[i..i + |needle|] == needle
  }

  /** `needle` occurs nowhere in `s` (an empty needle occurs everywhere). */
  predicate Free(needle: string, s: string)
  {
    forall i: nat :: i <= |s| ==> !OccursAt(s, needle, i)
  }

  /** No character of `a` appears in `b`. */
  predicate SharesNoChar(a: string, b: string)
  {
    forall c :: c in a ==> c !in b
  }

  /** PHP `str_starts_with($haystack, $needle)`; every string starts with "". */
  predicate StartsWith(haystack: string, needle: string)
  {
    needle <= haystack
  }

  /**
   * PHP `str_replace($search, $replace, $subject)` on strings: an empty search
   * leaves the subject as it is; otherwise the subject is scanned from the
   * left and every occurrence of `search` that does not overlap an earlier
   * replaced one is replaced, and the inserted text is never scanned again.
   */
  function StrReplace(search: string, replace: string, subject: string): string
    decreases |subject|
  {
    if search == [] || |subject| < |search| then subject
    else if subject[..|search|] == search then
      replace + StrReplace(search, replace, subject[|search|..])
    else
      [subject[0]] + StrReplace(search, replace, subject[1..])
  }

  /** An occurrence behind a prefix `x` is an occurrence in the rest `y`. */
  lemma OccursAtShift(x: string, y: string, needle: string, i: nat)
    requires |x| <= i
    ensures OccursAt(x + y, needle, i) <==> OccursAt(y, needle, i - |x|)
  {
    if i + |needle| <= |x + y| {
      assert (x + y)[i..i + |needle|] == y[i - |x|..i - |x| + |needle|];
    }
  }

  /** Dropping a prefix keeps a string free of `needle`. */
  lemma FreeOfTail(x: string, y: string, needle: string)
    requires Free(needle, x + y)
    ensures Free(needle, y)
  {
    forall i: nat | i <= |y| ensures !OccursAt(y, needle, i) {
      OccursAtShift(x, y, needle, i + |x|);
    }
  }

  /** No occurrence of `needle` can start inside a prefix `x` none of whose
      characters belongs to `needle`. */
  lemma NoOccurrenceInsidePrefix(x: string, y: string, needle: string, i: nat)
    requires i < |x| && needle != [] && SharesNoChar(needle, x)
    ensures !OccursAt(x + y, needle, i)
  {
    assert (x + y)[i] == x[i] && x[i] in x;
    assert x[i] !in needle;
    assert needle[0] in needle;
    if i + |needle| <= |x + y| {
      assert (x + y)[i..i + |needle|][0] == (x + y)[i];
    }
  }

  /**
   * As long as none of its characters belongs to the replacement, a prefix of
   * the result is the same prefix of the subject: text that `str_replace` did
   * not insert is copied through unchanged.
   */
  lemma {:induction false} UnreplacedPrefix(search: string, replace: string, subject: string, m: nat)
    requires replace != []
    requires m <= |StrReplace(search, replace, subject)|
    ensures (forall k :: 0 <= k < m ==> StrReplace(search, replace, subject)[k] !in replace) ==>
              m <= |subject| && StrReplace(search, replace, subject)[..m] == subject[..m]
    decreases |subject|
  {
    var r := StrReplace(search, replace, subject);
    if search == [] || |subject| < |search| {
    } else if subject[..|search|] == search {
      if m > 0 {
        assert r[0] == replace[0];
      }
    } else if m > 0 {
      var rest := StrReplace(search, replace, subject[1..]);
      assert r == [subject[0]] + rest;
      UnreplacedPrefix(search, replace, subject[1..], m - 1);
      if forall k :: 0 <= k < m ==> r[k] !in replace {
        forall k | 0 <= k < m - 1 ensures rest[k] !in replace {
          assert rest[k] == r[k + 1];
        }
        assert r[..m] == [subject[0]] + rest[..m - 1];
      }
    }
  }

  /** Where `needle` shares no character with the replacement, an occurrence of
      `needle` at the very start of the result was already at the start of the
      subject. */
  lemma LeadingOccurrenceCopied(search: string, replace: string, subject: string, needle: string)
    requires replace != [] && SharesNoChar(needle, replace)
    ensures OccursAt(StrReplace(search, replace, subject), needle, 0) ==> OccursAt(subject, needle, 0)
  {
    var r := StrReplace(search, replace, subject);
    if |needle| <= |r| {
      UnreplacedPrefix(search, replace, subject, |needle|);
      if OccursAt(r, needle, 0) {
        forall k | 0 <= k < |needle| ensures r[k] !in replace {
          assert r[k] == needle[k];
        }
      }
    }
  }

  /**
   * For a non-empty search and a non-empty replacement with no character in
   * common, the result of `str_replace` contains no occurrence of the search.
   */
  lemma {:induction false} ReplaceRemovesSearch(search: string, replace: string, subject: string)
    requires search != [] && replace != [] && SharesNoChar(search, replace)
    ensures Free(search, StrReplace(search, replace, subject))
    decreases |subject|
  {
    var r := StrReplace(search, replace, subject);
    if |subject| < |search| {
    } else if subject[..|search|] == search {
      var rest := StrReplace(search, replace, subject[|search|..]);
      ReplaceRemovesSearch(search, replace, subject[|search|..]);
      forall i: nat | i <= |r| ensures !OccursAt(r, search, i) {
        if i < |replace| {
          NoOccurrenceInsidePrefix(replace, rest, search, i);
        } else {
          OccursAtShift(replace, rest, search, i);
        }
      }
    } else {
      var rest := StrReplace(search, replace, subject[1..]);
      ReplaceRemovesSearch(search, replace, subject[1..]);
      forall i: nat | i <= |r| ensures !OccursAt(r, search, i) {
        if i == 0 {
          LeadingOccurrenceCopied(search, replace, subject, search);
        } else {
          OccursAtShift([subject[0]], rest, search, i);
        }
      }
    }
  }

  /**
   * Replacing one search string never creates an occurrence of another string
   * `other` that shares no character with the replacement.
   */
  lemma {:induction false} ReplacePreservesFree(search: string, replace: string, other: string, subject: string)
    requires other != [] && replace != [] && SharesNoChar(other, replace)
    requires Free(other, subject)
    ensures Free(other, StrReplace(search, replace, subject))
    decreases |subject|
  {
    var r := StrReplace(search, replace, subject);
    if search == [] || |subject| < |search| {
    } else if subject[..|search|] == search {
      var rest := StrReplace(search, replace, subject[|search|..]);
      assert subject == search + subject[|search|..];
      FreeOfTail(search, subject[|search|..], other);
      ReplacePreservesFree(search, replace, other, subject[|search|..]);
      forall i: nat | i <= |r| ensures !OccursAt(r, other, i) {
        if i < |replace| {
          NoOccurrenceInsidePrefix(replace, rest, other, i);
        } else {
          OccursAtShift(replace, rest, other, i);
        }
      }
    } else {
      var rest := StrReplace(search, replace, subject[1..]);
      assert subject == [subject[0]] + subject[1..];
      FreeOfTail([subject[0]], subject[1..], other);
      ReplacePreservesFree(search, replace, other, subject[1..]);
      forall i: nat | i <= |r| ensures !OccursAt(r, other, i) {
        if i == 0 {
          LeadingOccurrenceCopied(search, replace, subject, other);
        } else {
          OccursAtShift([subject[0]], rest, other, i);
        }
      }
    }
  }

  /** A subject with no occurrence of the search comes back unchanged. */
  lemma {:induction false} ReplaceFreeIsIdentity(search: string, replace: string, subject: string)
    requires Free(search, subject)
    ensures StrReplace(search, replace, subject) == subject
    decreases |subject|
  {
    if search == [] || |subject| < |search| {
    } else {
      assert !OccursAt(subject, search, 0);
      assert subject == [subject[0]] + subject[1..];
      FreeOfTail([subject[0]], subject[1..], search);
      ReplaceFreeIsIdentity(search, replace, subject[1..]);
    }
  }

  /** Applying the same replacement a second time changes nothing. */
  lemma ReplaceIdempotent(search: string, replace: string, subject: string)
    requires search != [] && replace != [] && SharesNoChar(search, replace)
    ensures StrReplace(search, replace, StrReplace(search, replace, subject))
            == StrReplace(search, replace, subject)
  {
    ReplaceRemovesSearch(search, replace, subject);
    ReplaceFreeIsIdentity(search, replace, StrReplace(search, replace, subject));
  }
}
