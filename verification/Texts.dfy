/** Source texts as UTF-16 code units, and the part from a position on. */
module Texts {

  type Text = seq<nat>

  /** The text from position `i` on; nothing when the position is past the end. */
  function From(src: Text, i: nat): Text {
    if i <= |src| then src[i..] else []
  }

  lemma FromDrop(src: Text, i: nat, n: nat)
    requires n <= |From(src, i)|
    ensures From(src, i)[n..] == From(src, i + n)
    ensures i <= |src| ==> i + n <= |src|
  {
  }

  lemma FromEnd(src: Text, i: nat)
    ensures From(src, i) == [] <==> i >= |src|
  {
  }
}
