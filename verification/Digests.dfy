/** What the models assume of a cryptographic digest, and of identifiers built around one. */
module Digests {
  import opened Utf8

  /** Collision freedom: the digest determines the bytes. */
  ghost predicate Injective(digest: Bytes -> string) {
    forall a, b :: digest(a) == digest(b) ==> a == b
  }

  lemma PrefixInjective(prefix: string, a: string, b: string)
    requires prefix + a == prefix + b
    ensures a == b
  {
    assert (prefix + a)[|prefix|..] == a && (prefix + b)[|prefix|..] == b;
  }

  lemma SuffixInjective(a: string, b: string, suffix: string)
    requires a + suffix == b + suffix
    ensures a == b
  {
    assert |a| == |b|;
    assert (a + suffix)[..|a|] == a && (b + suffix)[..|b|] == b;
  }
}
