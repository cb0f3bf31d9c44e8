/**
 * The vendored LZ4 block codec, seen through the wrappers of the bench: any pair of functions with the
 * contract below. Buffers are sequences over a byte type B.
 */
module Lz4 {
  import opened Bytes

  datatype Codec<!B> = Codec(
    compress: (seq<B>, nat) -> Option<seq<B>>,
    decompress: (seq<B>, nat) -> Option<seq<B>>,
    bound: nat -> nat)

  /** What a caller may rely on: output fits, decodes to the source, and is found when the bound fits. */
  ghost predicate Faithful<B(!new)>(lz: Codec<B>) {
    && (forall src, cap :: lz.compress(src, cap).Some? ==>
          && 0 < |lz.compress(src, cap).value| <= cap
          && lz.decompress(lz.compress(src, cap).value, |src|) == Some(src))
    && (forall src, cap :: 0 < lz.bound(|src|) <= cap ==> lz.compress(src, cap).Some?)
    && (forall data, cap :: lz.decompress(data, cap).Some? ==> |lz.decompress(data, cap).value| <= cap)
  }

  /** lz4u_compress: empty input compresses to nothing; None is the error value (size_t)-1. */
  function Compress<B>(lz: Codec<B>, src: seq<B>, cap: nat): Option<seq<B>> {
    if src == [] then Some([]) else lz.compress(src, cap)
  }

  /** lz4u_decompress: empty input decompresses to nothing; None is the error return. */
  function Decompress<B>(lz: Codec<B>, data: seq<B>, cap: nat): Option<seq<B>> {
    if data == [] then Some([]) else lz.decompress(data, cap)
  }

  lemma CompressUndone<B(!new)>(lz: Codec<B>, src: seq<B>, cap: nat)
    requires Faithful(lz) && Compress(lz, src, cap).Some?
    ensures Decompress(lz, Compress(lz, src, cap).value, |src|) == Some(src)
    ensures |Compress(lz, src, cap).value| <= cap
  {
  }

  /** A capacity that holds the (positive) bound for n input bytes. */
  predicate Roomy<B>(lz: Codec<B>, n: nat, cap: nat) {
    0 < lz.bound(n) <= cap
  }

  lemma CompressSucceeds<B(!new)>(lz: Codec<B>, src: seq<B>, cap: nat)
    requires Faithful(lz) && Roomy(lz, |src|, cap)
    ensures Compress(lz, src, cap).Some?
  {
  }
}
