/** The approximate string comparison used by both scripts. difflib's
    `SequenceMatcher(None, a, b).ratio()` is not modelled; it enters every
    definition as the parameter `ratio`, of which only `RatioAxioms` is assumed. */
module Similarity {
  import opened Text

  /** What the model assumes of `ratio`: it is a fraction in [0, 1], and
      any string compared with itself scores 1 (the empty string included;
      with no junk function, the longest-match search never stops early on
      identical sequences). */
  ghost predicate RatioAxioms(ratio: (string, string) -> real) {
    && (forall a, b :: 0.0 <= ratio(a, b) <= 1.0)
    && (forall a :: ratio(a, a) == 1.0)
  }

  /** The `similarity` helper of the correlation step: the ratio of the two
      names after lower-casing, a fraction in [0, 1]. */
  function Sim(ratio: (string, string) -> real, a: string, b: string): (r: real)
    ensures RatioAxioms(ratio) ==> 0.0 <= r <= 1.0
  {
    ratio(Lower(a), Lower(b))
  }

  /** Lower-casing the names first changes nothing: the helper lowers them
      itself, and lowering is idempotent. */
  lemma SimOfLowered(ratio: (string, string) -> real, a: string, b: string)
    ensures Sim(ratio, Lower(a), Lower(b)) == Sim(ratio, a, b)
  {
    LowerIdempotent(a);
    LowerIdempotent(b);
  }

  lemma SimilarityOfEqualNames(ratio: (string, string) -> real, a: string, b: string)
    requires RatioAxioms(ratio)
    requires EqualsIgnoreCase(a, b)
    ensures Sim(ratio, a, b) == 1.0
  {
  }
}
