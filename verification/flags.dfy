/**
 * The per-object flag word of the mark-sweep collector and the macros that
 * manipulate it (`Include/marksweep.h`). The header does not show the C type of
 * the word; it is modelled as a 32-bit word.
 */
module Flags {

  type Word = bv32

  /** `Py_MSFLAGS_MARKED`, the bit `1U << 0`. */
  const MARKED: Word := 1

  /** `PyMarkSweep_HasFlag(ob, f)`: the word and `f` share a set bit. */
  predicate HasFlag(w: Word, f: Word) {
    w & f != 0
  }

  /** `PyMarkSweep_ClearFlag(ob)`: the whole word is and-ed with zero, not just MARKED. */
  function ClearFlag(w: Word): (r: Word)
    ensures r == 0
    ensures forall f :: !HasFlag(r, f)
    ensures !IsMarked(r)
  {
    w & 0
  }

  /** `PyMarkSweep_SetFlag(ob, f)`: `f` is or-ed into the word. */
  function SetFlag(w: Word, f: Word): (r: Word)
    ensures f != 0 ==> HasFlag(r, f)
    ensures r & w == w
  {
    w | f
  }

  /** `PyMarkSweep_IsMarked(ob)`: bit 0 of the word, i.e. the word is odd. */
  function IsMarked(w: Word): (b: bool)
    ensures b <==> w % 2 == 1
  {
    HasFlag(w, MARKED)
  }

  /** SetFlag touches no bit outside `f`. */
  lemma SetFlagOnlyAdds(w: Word, f: Word)
    ensures SetFlag(w, f) & !f == w & !f
  {
  }

  /** A flag that was present before SetFlag is still present after it. */
  lemma SetFlagKeeps(w: Word, f: Word, g: Word)
    requires HasFlag(w, g)
    ensures HasFlag(SetFlag(w, f), g)
  {
  }

  /** Setting a flag a second time changes nothing. */
  lemma SetFlagIdempotent(w: Word, f: Word)
    ensures SetFlag(SetFlag(w, f), f) == SetFlag(w, f)
  {
  }

  /** Clearing a second time changes nothing. */
  lemma ClearFlagIdempotent(w: Word)
    ensures ClearFlag(ClearFlag(w)) == ClearFlag(w)
  {
  }

  /** Setting MARKED makes the word marked, whatever it held before. */
  lemma SetMarkedMarks(w: Word)
    ensures IsMarked(SetFlag(w, MARKED))
    ensures IsMarked(w) ==> SetFlag(w, MARKED) == w
  {
  }
}
