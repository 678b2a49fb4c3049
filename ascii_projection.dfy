/** The lossy projection of Uzbek Latin text onto printable ASCII
    (`toAsciiUzbek`): apostrophe variants are unified, a fixed set of Turkish
    and Romance diacritics is folded, the o/g clean-up of the transliterator
    is repeated, and every code unit still outside U+0020–U+007E becomes `?`. */
module AsciiProjection {
  import opened Text
  import opened Apostrophe
  import opened Transliteration

  /** The chain of global replacements for diacritics, in the order the source
      runs them: the Turkish letters, then the acute vowels. */
  const Folds: seq<Rule> := [
    Rule('ç', "ch"), Rule('Ç', "Ch"),
    Rule('ş', "sh"), Rule('Ş', "Sh"),
    Rule('ğ', "g"), Rule('Ğ', "G"),
    Rule('ı', "i"), Rule('İ', "I"),
    Rule('á', "a"), Rule('Á', "A"),
    Rule('é', "e"), Rule('É', "E"),
    Rule('í', "i"), Rule('Í', "I"),
    Rule('ó', "o"), Rule('Ó', "O"),
    Rule('ú', "u"), Rule('Ú', "U")
  ]

  /** The fold chain read as a table: the ASCII spelling of a folded letter,
      or the character itself. */
  function FoldOf(c: char): string {
    match c
    case 'ç' => "ch"  case 'Ç' => "Ch"
    case 'ş' => "sh"  case 'Ş' => "Sh"
    case 'ğ' => "g"   case 'Ğ' => "G"
    case 'ı' => "i"   case 'İ' => "I"
    case 'á' => "a"   case 'Á' => "A"
    case 'é' => "e"   case 'É' => "E"
    case 'í' => "i"   case 'Í' => "I"
    case 'ó' => "o"   case 'Ó' => "O"
    case 'ú' => "u"   case 'Ú' => "U"
    case _ => [c]
  }

  /** `/[^\x20-\x7E]/g` without the `u` flag matches single UTF-16 code units:
      a character above U+FFFF is two of them and turns into `??`. */
  function MaskChar(c: char): (r: string)
    ensures AllPrintable(r)
  {
    if Printable(c) then [c]
    else if c as int >= 0x1_0000 then "??"
    else "?"
  }

  /** `t.replace(/[^\x20-\x7E]/g, "?")`. */
  function Mask(t: string): (r: string)
    ensures AllPrintable(r)
  {
    var r := FlatMap(t, MaskChar);
    assert AllPrintable(r) by {
      forall i | 0 <= i < |r| ensures Printable(r[i]) {
        FlatMapOrigin(t, MaskChar, r[i]);
      }
    }
    r
  }

  /** The text before the final mask: unified, folded and cleaned up. */
  function Folded(s: string): string {
    ModifierCleanup(ReplaceEach(Unify(s), Folds, 0))
  }

  /** `toAsciiUzbek`: empty text is returned as it is; otherwise the stages.
      The result is printable ASCII whatever the input. */
  function ToAscii(s: string): (r: string)
    ensures AllPrintable(r)
  {
    if s == [] then s else Mask(Folded(s))
  }

  /** What the projection does to one character taken alone: an apostrophe
      variant becomes `'`, a folded letter its ASCII spelling, a printable
      character stays, and anything else becomes one `?` per UTF-16 code
      unit. */
  function AsciiOf(c: char): string {
    if c in Variants then "'"
    else if FoldOf(c) != [c] then FoldOf(c)
    else if Printable(c) then [c]
    else if c as int >= 0x1_0000 then "??"
    else "?"
  }

  lemma FoldsSeparated()
    ensures Separated(Folds)
  {
  }

  /** The acute-vowel half of the chain, on a character the Turkish half
      leaves alone. */
  lemma AcuteFoldTable(c: char)
    requires c !in "çÇşŞğĞıİ"
    ensures Lookup(Folds, 8, c) == FoldOf(c)
  {
  }

  /** Running the chain's rules on one character gives the fold table. */
  lemma FoldTable(c: char)
    ensures Lookup(Folds, 0, c) == FoldOf(c)
  {
    if c !in "çÇşŞğĞıİ" {
      AcuteFoldTable(c);
    }
  }

  /** Every fold is spelt in printable ASCII, for a non-ASCII letter that is
      no apostrophe variant. */
  lemma FoldLatin(c: char)
    ensures FoldOf(c) != [c] ==> c > '~' && c !in Variants && AllPrintable(FoldOf(c))
  {
  }

  /** Unification and folding as one per-character pass. */
  function UnifyFold(c: char): string {
    FoldOf(UnifyChar(c))
  }

  /** The first two stages are that pass. */
  lemma UnifyFoldPerChar(s: string)
    ensures ReplaceEach(Unify(s), Folds, 0) == FlatMap(s, UnifyFold)
  {
    var u := c => if c in Variants then "'" else [c];
    var l := c => Lookup(Folds, 0, c);
    FoldsSeparated();
    ReplaceEachIsPerChar(Unify(s), Folds, 0);
    forall c ensures FlatMap(u(c), l) == UnifyFold(c) {
      assert u(c) == [UnifyChar(c)];
      assert FlatMap([UnifyChar(c)], l) == l(UnifyChar(c)) + FlatMap([], l);
      FoldTable(UnifyChar(c));
    }
    FlatMapCompose(s, u, l, UnifyFold);
  }

  /** No modifier mark survives unification and folding. */
  lemma UnifyFoldNoModifier(s: string)
    ensures forall i :: 0 <= i < |FlatMap(s, UnifyFold)| ==> FlatMap(s, UnifyFold)[i] !in Modifiers
  {
    var t := FlatMap(s, UnifyFold);
    forall i | 0 <= i < |t| ensures t[i] !in Modifiers {
      FlatMapOrigin(s, UnifyFold, t[i]);
      var j :| 0 <= j < |s| && t[i] in UnifyFold(s[j]);
      FoldLatin(UnifyChar(s[j]));
    }
  }

  /** The o/g clean-up repeated in the projection never matches: the apostrophe
      variants, the modifier marks among them, are gone before it runs. */
  lemma CleanupNeverMatches(s: string)
    ensures Folded(s) == ReplaceEach(Unify(s), Folds, 0)
  {
    UnifyFoldPerChar(s);
    UnifyFoldNoModifier(s);
  }

  /** Masking the pass's image of one character gives its projection. */
  lemma MaskAfterFold(c: char)
    ensures FlatMap(UnifyFold(c), MaskChar) == AsciiOf(c)
  {
    var x := UnifyChar(c);
    FoldLatin(x);
    if FoldOf(x) != [x] {
      var t := FoldOf(x);
      forall i | 0 <= i < |t| ensures MaskChar(t[i]) == [t[i]] {
      }
      FlatMapIdentity(t, MaskChar);
    } else {
      assert FlatMap([x], MaskChar) == MaskChar(x) + FlatMap([], MaskChar);
    }
  }

  /** The projection works character by character. */
  lemma ToAsciiPerChar(s: string)
    ensures ToAscii(s) == FlatMap(s, AsciiOf)
  {
    if s != [] {
      CleanupNeverMatches(s);
      UnifyFoldPerChar(s);
      forall c ensures FlatMap(UnifyFold(c), MaskChar) == AsciiOf(c) {
        MaskAfterFold(c);
      }
      FlatMapCompose(s, UnifyFold, MaskChar, AsciiOf);
    }
  }

  /** Projecting a concatenation projects both parts. */
  lemma ToAsciiAppend(a: string, b: string)
    ensures ToAscii(a + b) == ToAscii(a) + ToAscii(b)
  {
    ToAsciiPerChar(a + b);
    ToAsciiPerChar(a);
    ToAsciiPerChar(b);
    FlatMapAppend(a, b, AsciiOf);
  }

  /** A printable character is its own projection. */
  lemma AsciiOfPrintable(c: char)
    requires Printable(c)
    ensures AsciiOf(c) == [c]
  {
  }

  /** Printable ASCII is returned unchanged. */
  lemma PrintableUnchanged(s: string)
    requires AllPrintable(s)
    ensures ToAscii(s) == s
  {
    ToAsciiPerChar(s);
    forall i | 0 <= i < |s| ensures AsciiOf(s[i]) == [s[i]] {
      AsciiOfPrintable(s[i]);
    }
    FlatMapIdentity(s, AsciiOf);
  }

  lemma ToAsciiIdempotent(s: string)
    ensures ToAscii(ToAscii(s)) == ToAscii(s)
  {
    PrintableUnchanged(ToAscii(s));
  }

  /** A single character's projection is its table entry. */
  lemma ToAsciiChar(c: char)
    ensures ToAscii([c]) == AsciiOf(c)
  {
    ToAsciiPerChar([c]);
    assert FlatMap([c], AsciiOf) == AsciiOf(c) + FlatMap([], AsciiOf);
  }

  /** Each apostrophe variant becomes the ASCII apostrophe, not `?`. */
  lemma VariantsBecomeApostrophe(c: char)
    requires c in Variants
    ensures ToAscii([c]) == "'"
  {
    ToAsciiChar(c);
  }

  lemma AsciiOfFold(c: char)
    requires FoldOf(c) != [c]
    ensures AsciiOf(c) == FoldOf(c)
  {
    FoldLatin(c);
  }

  /** Each letter of the fold chain becomes its ASCII spelling (`ç` becomes
      `ch`, `İ` becomes `I`, `ó` becomes `o`, ...). */
  lemma FoldedLetter(c: char)
    requires FoldOf(c) != [c]
    ensures ToAscii([c]) == FoldOf(c)
  {
    ToAsciiChar(c);
    AsciiOfFold(c);
  }

  lemma AsciiOfMasked(c: char)
    requires !Printable(c) && c as int < 0x1_0000 && c !in Variants && FoldOf(c) == [c]
    ensures AsciiOf(c) == "?"
  {
  }

  /** Any other code unit outside U+0020–U+007E becomes one `?`: line breaks,
      tabs and DEL as well as the letters the projection does not fold, such as
      Cyrillic ones. */
  lemma MaskedChar(c: char)
    requires !Printable(c) && c as int < 0x1_0000 && c !in Variants && FoldOf(c) == [c]
    ensures ToAscii([c]) == "?"
  {
    ToAsciiChar(c);
    AsciiOfMasked(c);
  }

  lemma AsciiOfAstral(c: char)
    requires c as int >= 0x1_0000
    ensures AsciiOf(c) == "??"
  {
  }

  /** A character beyond U+FFFF is two UTF-16 code units, each masked. */
  lemma MaskedAstral(c: char)
    requires c as int >= 0x1_0000
    ensures ToAscii([c]) == "??"
  {
    ToAsciiChar(c);
    AsciiOfAstral(c);
  }
}
