/** The apostrophe normaliser: the four look-alikes of the apostrophe that
    Uzbek Latin text is written with become the ASCII apostrophe. */
module Apostrophe {
  import opened Text

  /** LEFT and RIGHT SINGLE QUOTATION MARK, MODIFIER LETTER APOSTROPHE and
      MODIFIER LETTER TURNED COMMA. */
  const Variants: set<char> := {'\U{2018}', '\U{2019}', '\U{02BC}', '\U{02BB}'}

  /** The two modifier letters the o/g clean-up of the transliterator looks for. */
  const Modifiers: set<char> := {'\U{02BB}', '\U{02BC}'}

  /** Where one character goes under `Unify`. */
  function UnifyChar(c: char): char {
    if c in Variants then '\'' else c
  }

  /** `s.replace(/[‘’ʼʻ]/g, "'")`: the text keeps its length,
      each variant becomes `'` and every other character stays where it was. */
  function Unify(s: string): (r: string)
    ensures |r| == |s|
    ensures forall i :: 0 <= i < |s| ==> r[i] == UnifyChar(s[i])
  {
    FlatMapPointwise(s, c => if c in Variants then "'" else [c], UnifyChar);
    ReplaceAny(s, Variants, "'")
  }

  /** No variant is left in the output. */
  lemma UnifyRemovesVariants(s: string)
    ensures forall i :: 0 <= i < |Unify(s)| ==> Unify(s)[i] !in Variants
  {
  }

  /** Text without a variant is returned as it is. */
  lemma UnifyFixpoint(s: string)
    requires forall i :: 0 <= i < |s| ==> s[i] !in Variants
    ensures Unify(s) == s
  {
  }

  lemma UnifyIdempotent(s: string)
    ensures Unify(Unify(s)) == Unify(s)
  {
    UnifyRemovesVariants(s);
    UnifyFixpoint(Unify(s));
  }

  /** Normalising a concatenation normalises both parts. */
  lemma UnifyAppend(a: string, b: string)
    ensures Unify(a + b) == Unify(a) + Unify(b)
  {
    FlatMapAppend(a, b, c => if c in Variants then "'" else [c]);
  }
}
