/** The anchor replacement of the activation probes (scripts/check-activation-effective.ts). */
module ReplaceOnce {
  import opened Text

  datatype Replacement = NotFound | NotUnique | Replaced(text: string)

  function Replace(src: string, needle: string, replacement: string): Replacement {
    var idx := IndexOf(src, needle, 0);
    if idx == -1 then NotFound
    else if IndexOf(src, needle, idx + |needle|) != -1 then NotUnique
    else Replaced(src[..idx] + replacement + src[idx + |needle|..])
  }

  ghost predicate Occurs(s: string, needle: string) {
    exists i :: OccursAt(s, needle, i)
  }

  ghost predicate OccursOnce(s: string, needle: string) {
    exists i :: OccursAt(s, needle, i) && forall j :: OccursAt(s, needle, j) ==> j == i
  }

  /** `src` is `prefix + needle + suffix`, the needle starts nowhere earlier, and not in `suffix`. */
  ghost predicate Splits(src: string, needle: string, prefix: string, suffix: string) {
    && src == prefix + needle + suffix
    && (forall j :: 0 <= j < |prefix| ==> !OccursAt(src, needle, j))
    && !Occurs(suffix, needle)
  }

  lemma OccursInSuffix(s: string, needle: string, from: nat, i: int)
    requires from <= |s| && from <= i
    ensures OccursAt(s, needle, i) <==> OccursAt(s[from..], needle, i - from)
  {
  }

  /** A text comes back exactly when the source splits, and it is the split with the middle exchanged. */
  lemma ReplacedMeansSplit(src: string, needle: string, replacement: string, text: string)
    ensures Replace(src, needle, replacement) == Replaced(text) <==>
      exists prefix, suffix :: Splits(src, needle, prefix, suffix) && text == prefix + replacement + suffix
  {
    var idx := IndexOf(src, needle, 0);
    if Replace(src, needle, replacement) == Replaced(text) {
      var prefix, suffix := src[..idx], src[idx + |needle|..];
      assert src == prefix + needle + suffix;
      forall j | OccursAt(suffix, needle, j)
        ensures false
      {
        OccursInSuffix(src, needle, idx + |needle|, j + idx + |needle|);
      }
      assert Splits(src, needle, prefix, suffix);
    }
    forall prefix, suffix | Splits(src, needle, prefix, suffix) && text == prefix + replacement + suffix
      ensures Replace(src, needle, replacement) == Replaced(text)
    {
      SplitIsReplaced(src, needle, replacement, prefix, suffix);
    }
  }

  lemma SplitIsReplaced(src: string, needle: string, replacement: string, prefix: string, suffix: string)
    requires Splits(src, needle, prefix, suffix)
    ensures Replace(src, needle, replacement) == Replaced(prefix + replacement + suffix)
  {
    assert src[|prefix|..|prefix| + |needle|] == needle;
    assert OccursAt(src, needle, |prefix|);
    var idx := IndexOf(src, needle, 0);
    assert idx == |prefix|;
    assert src[..idx] == prefix && src[idx + |needle|..] == suffix;
    var next := IndexOf(src, needle, idx + |needle|);
    if next != -1 {
      OccursInSuffix(src, needle, idx + |needle|, next);
    }
  }

  /** The refusals: nothing to replace, or a further occurrence that does not overlap the first. */
  lemma RefusalsAreExact(src: string, needle: string, replacement: string)
    ensures Replace(src, needle, replacement).NotFound? <==> !Occurs(src, needle)
    ensures Replace(src, needle, replacement).NotUnique? <==>
      exists i, j :: OccursAt(src, needle, i) && OccursAt(src, needle, j) && i + |needle| <= j
  {
  }

  // ----- When "replaced" means "occurs exactly once" -----

  /** A proper prefix of length `b` is also a suffix. */
  predicate Border(needle: string, b: nat) {
    0 < b < |needle| && needle[..b] == needle[|needle| - b..]
  }

  /** The needle is not empty and cannot overlap a shifted copy of itself. */
  ghost predicate CannotOverlap(needle: string) {
    needle != "" && forall b :: !Border(needle, b)
  }

  lemma OverlapIsBorder(s: string, needle: string, i: int, j: int)
    requires OccursAt(s, needle, i) && OccursAt(s, needle, j) && i < j < i + |needle|
    ensures Border(needle, i + |needle| - j)
  {
  }

  lemma OnceIfNoOverlap(src: string, needle: string, replacement: string)
    requires CannotOverlap(needle)
    ensures Replace(src, needle, replacement).Replaced? <==> OccursOnce(src, needle)
  {
    RefusalsAreExact(src, needle, replacement);
    var idx := IndexOf(src, needle, 0);
    if Replace(src, needle, replacement).Replaced? {
      forall j | OccursAt(src, needle, j)
        ensures j == idx
      {
        if idx < j < idx + |needle| {
          OverlapIsBorder(src, needle, idx, j);
        }
      }
    }
  }

  /** A needle that overlaps itself is accepted on a text that holds it twice; the empty needle is
      refused on the empty text, which holds it once. */
  lemma OverlapDefeatsUniqueness(needle: string) returns (src: string)
    requires !CannotOverlap(needle)
    ensures Replace(src, needle, "").Replaced? != OccursOnce(src, needle)
  {
    if needle == "" {
      src := "";
      assert OccursAt(src, needle, 0);
    } else {
      var b: nat :| Border(needle, b);
      src := needle + needle[b..];
      var second := |needle| - b;
      assert src[0..|needle|] == needle;
      assert OccursAt(src, needle, 0);
      assert src[second..second + |needle|] == needle by {
        assert src[second..|needle|] == needle[second..];
        assert src[second..second + |needle|] == src[second..|needle|] + src[|needle|..];
        assert needle == needle[..b] + needle[b..];
      }
      assert OccursAt(src, needle, second);
    }
  }

  /** The exact condition, for every needle. */
  lemma UniquenessIsExact(needle: string)
    ensures CannotOverlap(needle) <==>
      forall src :: Replace(src, needle, "").Replaced? <==> OccursOnce(src, needle)
  {
    if CannotOverlap(needle) {
      forall src
        ensures Replace(src, needle, "").Replaced? <==> OccursOnce(src, needle)
      {
        OnceIfNoOverlap(src, needle, "");
      }
    } else {
      var src := OverlapDefeatsUniqueness(needle);
    }
  }
}
