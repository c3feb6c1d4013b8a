/** Applying a function to every element of a sequence. */
module Sequences {

  function MapSeq<A, B>(f: A -> B, s: seq<A>): (r: seq<B>)
    ensures |r| == |s|
  {
    if s == [] then [] else [f(s[0])] + MapSeq(f, s[1..])
  }

  lemma {:induction false} MapSeqAt<A, B>(f: A -> B, s: seq<A>, i: nat)
    requires i < |s|
    ensures MapSeq(f, s)[i] == f(s[i])
  {
    if i > 0 {
      MapSeqAt(f, s[1..], i - 1);
    }
  }

  /** Mapping a sequence with one element removed removes the same element from the image. */
  lemma MapSeqRemove<A, B>(f: A -> B, s: seq<A>, k: nat)
    requires k < |s|
    ensures MapSeq(f, s[..k] + s[k + 1..]) == MapSeq(f, s)[..k] + MapSeq(f, s)[k + 1..]
  {
    var shorter := s[..k] + s[k + 1..];
    var image, kept := MapSeq(f, s), MapSeq(f, shorter);
    var expected := image[..k] + image[k + 1..];
    forall i | 0 <= i < |kept|
      ensures kept[i] == expected[i]
    {
      MapSeqAt(f, shorter, i);
      if i < k {
        assert shorter[i] == s[i] && expected[i] == image[i];
        MapSeqAt(f, s, i);
      } else {
        assert shorter[i] == s[i + 1] && expected[i] == image[i + 1];
        MapSeqAt(f, s, i + 1);
      }
    }
    assert |kept| == |expected|;
  }
}
