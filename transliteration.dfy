/** Uzbek Cyrillic to Uzbek Latin (`cyrToLatin`): the letters written with two
    Latin characters first, then a one-letter table, then a clean-up of `o`/`g`
    followed by a modifier mark, then the apostrophe normaliser. */
module Transliteration {
  import opened Text
  import opened Apostrophe

  /** The chain of global replacements run first, in the order the source
      runs them. */
  const Digraphs: seq<Rule> := [
    Rule('Ч', "Ch"), Rule('ч', "ch"),
    Rule('Ш', "Sh"), Rule('ш', "sh"),
    Rule('Ю', "Yu"), Rule('ю', "yu"),
    Rule('Я', "Ya"), Rule('я', "ya"),
    Rule('Ё', "Yo"), Rule('ё', "yo")
  ]

  datatype Option<+T> = None | Some(value: T)

  /** `map[ch]`: the entry of the one-letter table, a record from a Cyrillic
      letter to its Latin spelling; `None` stands for `undefined`. The record
      is written here in three parts, whose keys are disjoint. */
  function LetterEntry(c: char): Option<Latin> {
    if UzbekEntry(c).Some? then UzbekEntry(c)
    else if AlphabetEntryAToI(c).Some? then AlphabetEntryAToI(c)
    else AlphabetEntryKToX(c)
  }

  /** The letters particular to Uzbek, and the signs, first in the record. */
  function UzbekEntry(c: char): Option<Latin> {
    match c
    case 'Қ' => Some("Q")  case 'қ' => Some("q")
    case 'Ғ' => Some("G'")  case 'ғ' => Some("g'")
    case 'Ў' => Some("O'")  case 'ў' => Some("o'")
    case 'Ҳ' => Some("H")  case 'ҳ' => Some("h")
    case 'Й' => Some("Y")  case 'й' => Some("y")
    case 'Ц' => Some("Ts")  case 'ц' => Some("ts")
    case 'Щ' => Some("Sh")  case 'щ' => Some("sh")
    case 'Э' => Some("E")  case 'э' => Some("e")
    case 'Ъ' => Some("'")  case 'ъ' => Some("'")
    case 'Ь' => Some("")  case 'ь' => Some("")
    case _ => None
  }

  /** The common letters from `А` to `И`. */
  function AlphabetEntryAToI(c: char): Option<Latin> {
    match c
    case 'А' => Some("A")  case 'а' => Some("a")
    case 'Б' => Some("B")  case 'б' => Some("b")
    case 'В' => Some("V")  case 'в' => Some("v")
    case 'Г' => Some("G")  case 'г' => Some("g")
    case 'Д' => Some("D")  case 'д' => Some("d")
    case 'Е' => Some("E")  case 'е' => Some("e")
    case 'Ж' => Some("J")  case 'ж' => Some("j")
    case 'З' => Some("Z")  case 'з' => Some("z")
    case 'И' => Some("I")  case 'и' => Some("i")
    case _ => None
  }

  /** The common letters from `К` to `Х`. */
  function AlphabetEntryKToX(c: char): Option<Latin> {
    match c
    case 'К' => Some("K")  case 'к' => Some("k")
    case 'Л' => Some("L")  case 'л' => Some("l")
    case 'М' => Some("M")  case 'м' => Some("m")
    case 'Н' => Some("N")  case 'н' => Some("n")
    case 'О' => Some("O")  case 'о' => Some("o")
    case 'П' => Some("P")  case 'п' => Some("p")
    case 'Р' => Some("R")  case 'р' => Some("r")
    case 'С' => Some("S")  case 'с' => Some("s")
    case 'Т' => Some("T")  case 'т' => Some("t")
    case 'У' => Some("U")  case 'у' => Some("u")
    case 'Ф' => Some("F")  case 'ф' => Some("f")
    case 'Х' => Some("X")  case 'х' => Some("x")
    case _ => None
  }

  /** `map[ch] ?? ch`: a letter of the table becomes its entry (possibly the
      empty string), anything else is kept. */
  function Letter(c: char): string {
    match LetterEntry(c)
    case Some(latin) => latin
    case None => [c]
  }

  /** The digraph chain read as a table: the Latin spelling it gives a
      letter, or the letter itself. */
  function DigraphOf(c: char): string {
    match c
    case 'Ч' => "Ch"  case 'ч' => "ch"
    case 'Ш' => "Sh"  case 'ш' => "sh"
    case 'Ю' => "Yu"  case 'ю' => "yu"
    case 'Я' => "Ya"  case 'я' => "ya"
    case 'Ё' => "Yo"  case 'ё' => "yo"
    case _ => [c]
  }

  /** A Cyrillic letter one of the two tables rewrites. */
  predicate IsTableLetter(c: char) {
    DigraphOf(c) != [c] || LetterEntry(c).Some?
  }

  /** What the first two stages do to a single character: its digraph if it
      has one, otherwise its entry in the one-letter table, otherwise itself. */
  function Translit(c: char): string {
    if DigraphOf(c) != [c] then DigraphOf(c) else Letter(c)
  }

  /** The digraph chain, then the per-letter map. */
  function LetterStages(s: string): string {
    FlatMap(ReplaceEach(s, Digraphs, 0), Letter)
  }

  /** `s.replace(/o[ʻʼ]/gi, "o'").replace(/g[ʻʼ]/gi, "g'")`. The pattern ignores
      case, but the replacement is the lower-case letter. */
  function ModifierCleanup(s: string): (r: string)
    ensures forall ch :: ch in r ==> ch in s || ch in "o'g"
    ensures (forall i :: 0 <= i < |s| ==> s[i] !in Modifiers) ==> r == s
  {
    var r := ReplacePair(ReplacePair(s, {'o', 'O'}, Modifiers, "o'"), {'g', 'G'}, Modifiers, "g'");
    assert (forall i :: 0 <= i < |s| ==> s[i] !in Modifiers) ==> r == s by {
      if forall i :: 0 <= i < |s| ==> s[i] !in Modifiers {
        ReplacePairNoMatch(s, {'o', 'O'}, Modifiers, "o'");
        ReplacePairNoMatch(s, {'g', 'G'}, Modifiers, "g'");
      }
    }
    r
  }

  /** `cyrToLatin`: empty text is returned as it is; otherwise the four stages.
      No apostrophe variant survives. */
  function CyrToLatin(input: string): (r: string)
    ensures forall i :: 0 <= i < |r| ==> r[i] !in Variants
  {
    if input == [] then input
    else Unify(ModifierCleanup(LetterStages(input)))
  }

  /** The digraph chain rewrites non-ASCII letters only, into printable ASCII. */
  lemma DigraphsSeparated()
    ensures Separated(Digraphs)
  {
  }

  /** Running the chain's rules on one character gives the digraph table. */
  lemma DigraphTable(c: char)
    ensures Lookup(Digraphs, 0, c) == DigraphOf(c)
  {
  }

  /** Every digraph is spelt in printable ASCII, for a non-ASCII letter. */
  lemma DigraphLatin(c: char)
    ensures DigraphOf(c) != [c] ==> c > '~' && |DigraphOf(c)| == 2 && AllPrintable(DigraphOf(c))
  {
  }

  /** Every entry of the one-letter table is keyed by a non-ASCII letter (and,
      by its type, spelt in printable ASCII). */
  lemma LetterKeysNonAscii(c: char)
    ensures c <= '~' ==> LetterEntry(c).None?
  {
  }

  /** A character the one-letter table has no entry for is kept by it. */
  lemma LetterKeeps(c: char)
    requires LetterEntry(c).None?
    ensures Letter(c) == [c]
  {
  }

  /** Each character either is no table letter and is kept, or becomes
      printable ASCII text. */
  lemma TranslitCases(c: char)
    ensures (!IsTableLetter(c) && Translit(c) == [c]) || AllPrintable(Translit(c))
  {
    DigraphLatin(c);
    LetterKeysNonAscii(c);
  }

  /** What the one-letter table does to the digraph stage's image of one
      character is that character's entry in the combined table. */
  lemma LetterAfterDigraph(c: char)
    ensures FlatMap(DigraphOf(c), Letter) == Translit(c)
  {
    DigraphLatin(c);
    if DigraphOf(c) != [c] {
      var t := DigraphOf(c);
      forall i | 0 <= i < |t| ensures Letter(t[i]) == [t[i]] {
        LetterKeysNonAscii(t[i]);
        LetterKeeps(t[i]);
      }
      FlatMapIdentity(t, Letter);
    } else {
      assert FlatMap([c], Letter) == Letter(c) + FlatMap([], Letter);
    }
  }

  /** The digraph chain followed by the one-letter table is a single
      per-character pass: a two-letter result of the first stage is never
      touched by the second. */
  lemma LetterStagesPerChar(s: string)
    ensures LetterStages(s) == FlatMap(s, Translit)
  {
    DigraphsSeparated();
    ReplaceEachIsPerChar(s, Digraphs, 0);
    var d := c => Lookup(Digraphs, 0, c);
    forall c ensures FlatMap(d(c), Letter) == Translit(c) {
      DigraphTable(c);
      LetterAfterDigraph(c);
    }
    FlatMapCompose(s, d, Letter, Translit);
  }

  /** No table letter is ASCII. */
  lemma AsciiIsNoTableLetter(ch: char)
    requires ch <= '~'
    ensures !IsTableLetter(ch)
  {
    DigraphLatin(ch);
    LetterKeysNonAscii(ch);
  }

  /** A character of the letter stages' output that is not ASCII was copied
      from the input, where it was no table letter. */
  lemma LetterStagesChar(input: string, ch: char)
    requires ch in LetterStages(input) && ch > '~'
    ensures ch in input && !IsTableLetter(ch)
  {
    LetterStagesPerChar(input);
    FlatMapOrigin(input, Translit, ch);
    var j :| 0 <= j < |input| && ch in Translit(input[j]);
    TranslitCases(input[j]);
  }

  /** A character of the clean-up's output that is not ASCII is no table letter. */
  lemma CleanupChar(input: string, ch: char)
    requires ch in ModifierCleanup(LetterStages(input)) && ch > '~'
    ensures !IsTableLetter(ch)
  {
    LetterStagesChar(input, ch);
  }

  /** No Cyrillic letter of either table is left in the output. */
  lemma NoTableLetterLeft(input: string)
    ensures forall i :: 0 <= i < |CyrToLatin(input)| ==> !IsTableLetter(CyrToLatin(input)[i])
  {
    if input != [] {
      var u := ModifierCleanup(LetterStages(input));
      var r := CyrToLatin(input);
      assert r == Unify(u);
      forall i | 0 <= i < |r| ensures !IsTableLetter(r[i]) {
        if r[i] <= '~' {
          AsciiIsNoTableLetter(r[i]);
        } else {
          assert r[i] == u[i];
          CleanupChar(input, u[i]);
        }
      }
    }
  }

  /** Text with no table letter and no apostrophe variant is returned
      unchanged; this is what makes Latin input a no-op. */
  lemma LatinFixpoint(s: string)
    requires forall i :: 0 <= i < |s| ==> !IsTableLetter(s[i]) && s[i] !in Variants
    ensures CyrToLatin(s) == s
  {
    if s != [] {
      LetterStagesPerChar(s);
      FlatMapIdentity(s, Translit);
      UnifyFixpoint(s);
    }
  }

  lemma CyrToLatinIdempotent(s: string)
    ensures CyrToLatin(CyrToLatin(s)) == CyrToLatin(s)
  {
    NoTableLetterLeft(s);
    LatinFixpoint(CyrToLatin(s));
  }

  /** A modifier mark is in neither table. */
  lemma ModifierIsNoTableLetter(c: char)
    requires c in Modifiers
    ensures !IsTableLetter(c)
  {
  }

  /** An ASCII character passes the first two stages unchanged; so does a
      modifier mark. */
  lemma TranslitKeeps(c: char)
    requires c <= '~' || c in Modifiers
    ensures Translit(c) == [c]
  {
    if c <= '~' {
      AsciiIsNoTableLetter(c);
    } else {
      ModifierIsNoTableLetter(c);
    }
    LetterKeeps(c);
  }

  /** A leading ASCII letter and modifier mark pass the first two stages as
      they are. */
  lemma TranslitPair(h: char, m: char, rest: string)
    requires h <= '~' && m in Modifiers
    ensures FlatMap([h, m] + rest, Translit) == [h, m] + FlatMap(rest, Translit)
  {
    forall i | 0 <= i < 2 ensures Translit([h, m][i]) == [[h, m][i]] {
      TranslitKeeps([h, m][i]);
    }
    FlatMapKeepsPrefix([h, m], rest, Translit);
  }

  lemma LetterStagesPair(h: char, m: char, rest: string)
    requires h <= '~' && m in Modifiers
    ensures LetterStages([h, m] + rest) == [h, m] + LetterStages(rest)
  {
    LetterStagesPerChar([h, m] + rest);
    LetterStagesPerChar(rest);
    TranslitPair(h, m, rest);
  }

  /** Everything after the empty-input check maps the empty text to itself. */
  lemma StagesOfEmpty()
    ensures Unify(ModifierCleanup(LetterStages([]))) == []
  {
    LetterStagesPerChar([]);
  }

  /** `cyrToLatin` is the stages after the empty-input check on every input,
      the empty one included. */
  lemma CyrToLatinStages(s: string)
    ensures CyrToLatin(s) == Unify(ModifierCleanup(LetterStages(s)))
  {
    if s == [] {
      StagesOfEmpty();
    }
  }

  lemma CleanupOPair(h: char, m: char, t: string)
    requires h in {'o', 'O'} && m in Modifiers
    ensures ModifierCleanup([h, m] + t) == "o'" + ModifierCleanup(t)
  {
    assert ([h, m] + t)[2..] == t;
    var y := ReplacePair(t, {'o', 'O'}, Modifiers, "o'");
    ReplacePairSkip('\'', y, {'g', 'G'}, Modifiers, "g'");
    ReplacePairSkip('o', ['\''] + y, {'g', 'G'}, Modifiers, "g'");
    assert "o'" + y == ['o'] + (['\''] + y);
  }

  lemma CleanupGPair(h: char, m: char, t: string)
    requires h in {'g', 'G'} && m in Modifiers
    ensures ModifierCleanup([h, m] + t) == "g'" + ModifierCleanup(t)
  {
    ReplacePairSkip(m, t, {'o', 'O'}, Modifiers, "o'");
    ReplacePairSkip(h, [m] + t, {'o', 'O'}, Modifiers, "o'");
    assert [h, m] + t == [h] + ([m] + t);
    var y := ReplacePair(t, {'o', 'O'}, Modifiers, "o'");
    assert [h] + ([m] + y) == [h, m] + y;
    assert ([h, m] + y)[2..] == y;
  }

  /** An ASCII prefix without variants survives the normaliser. */
  lemma UnifyAsciiPrefix(p: string, z: string)
    requires p == "o'" || p == "g'"
    ensures Unify(p + z) == p + Unify(z)
  {
    UnifyAppend(p, z);
    UnifyFixpoint(p);
  }

  /** `o` or `O` followed by a modifier mark comes out as the lower-case
      `o'`, and the rest of the text is transliterated on its own. */
  lemma OModifier(h: char, m: char, rest: string)
    requires h in {'o', 'O'} && m in Modifiers
    ensures CyrToLatin([h, m] + rest) == "o'" + CyrToLatin(rest)
  {
    var t := LetterStages(rest);
    LetterStagesPair(h, m, rest);
    CleanupOPair(h, m, t);
    UnifyAsciiPrefix("o'", ModifierCleanup(t));
    CyrToLatinStages([h, m] + rest);
    CyrToLatinStages(rest);
  }

  /** `g` or `G` followed by a modifier mark comes out as the lower-case
      `g'`, and the rest of the text is transliterated on its own. */
  lemma GModifier(h: char, m: char, rest: string)
    requires h in {'g', 'G'} && m in Modifiers
    ensures CyrToLatin([h, m] + rest) == "g'" + CyrToLatin(rest)
  {
    var t := LetterStages(rest);
    LetterStagesPair(h, m, rest);
    CleanupGPair(h, m, t);
    UnifyAsciiPrefix("g'", ModifierCleanup(t));
    CyrToLatinStages([h, m] + rest);
    CyrToLatinStages(rest);
  }

  /** The spellings of the digraph chain. */
  lemma DigraphSpellings()
    ensures Translit('Ч') == "Ch" && Translit('ч') == "ch" && Translit('Ш') == "Sh"
    ensures Translit('Ю') == "Yu" && Translit('Я') == "Ya" && Translit('Ё') == "Yo"
  {
  }

  /** Some spellings of the one-letter table. */
  lemma UzbekSpellings()
    ensures Translit('Ц') == "Ts" && Translit('Щ') == "Sh" && Translit('Ғ') == "G'" && Translit('Ў') == "O'"
  {
  }

  /** The hard sign becomes an apostrophe, the soft sign disappears, and `Ы`,
      which neither table lists, passes through. */
  lemma SignSpellings()
    ensures Translit('Ъ') == "'" && Translit('ъ') == "'"
    ensures Translit('Ь') == "" && Translit('ь') == ""
    ensures Translit('Ы') == "Ы"
  {
  }

  /** The first two stages on `Чўл`, one letter at a time. */
  lemma ChulLetters()
    ensures FlatMap("Чўл", Translit) == "Cho'l"
  {
    assert FlatMap("л", Translit) == "l" by {
      assert Translit('л') == "l";
    }
    assert FlatMap("ўл", Translit) == "o'l" by {
      assert Translit('ў') == "o'";
      assert "ўл"[1..] == "л";
    }
    assert Translit('Ч') == "Ch";
    assert "Чўл"[1..] == "ўл";
  }

  /** Neither the clean-up nor the normaliser has anything to do on `Cho'l`. */
  lemma ChulCleanup()
    ensures Unify(ModifierCleanup("Cho'l")) == "Cho'l"
  {
    ReplacePairNoMatch("Cho'l", {'o', 'O'}, Modifiers, "o'");
    ReplacePairNoMatch("Cho'l", {'g', 'G'}, Modifiers, "g'");
    UnifyFixpoint("Cho'l");
  }

  /** The two-letter digraph is resolved before any single-letter lookup, and
      the apostrophe of `ў` is the ASCII one. */
  lemma ChulExample()
    ensures CyrToLatin("Чўл") == "Cho'l"
  {
    ChulLetters();
    LetterStagesPerChar("Чўл");
    ChulCleanup();
    CyrToLatinStages("Чўл");
  }

  /** Latin text is left as it is. */
  lemma SalomExample()
    ensures CyrToLatin("Salom, do'stim!") == "Salom, do'stim!"
  {
    forall i | 0 <= i < |"Salom, do'stim!"|
      ensures !IsTableLetter("Salom, do'stim!"[i]) && "Salom, do'stim!"[i] !in Variants
    {
      AsciiIsNoTableLetter("Salom, do'stim!"[i]);
    }
    LatinFixpoint("Salom, do'stim!");
  }

  /** The case of a capital `O` before a modifier mark is lost: `Oʻzbek`
      comes out as `o'zbek`, and so does any Latin word behind `Oʻ`. */
  lemma CapitalOLosesCase(rest: string)
    requires forall i :: 0 <= i < |rest| ==> !IsTableLetter(rest[i]) && rest[i] !in Variants
    ensures CyrToLatin(['O', '\U{02BB}'] + rest) == "o'" + rest
  {
    OModifier('O', '\U{02BB}', rest);
    LatinFixpoint(rest);
  }

  /** The Unicode lower-case partner of each capital either table lists;
      any other character is its own partner. */
  function CyrillicLower(c: char): char {
    match c
    case 'Ч' => 'ч'  case 'Ш' => 'ш'  case 'Ю' => 'ю'  case 'Я' => 'я'
    case 'Ё' => 'ё'  case 'Қ' => 'қ'  case 'Ғ' => 'ғ'  case 'Ў' => 'ў'
    case 'Ҳ' => 'ҳ'  case 'Й' => 'й'  case 'Ц' => 'ц'  case 'Щ' => 'щ'
    case 'Э' => 'э'  case 'Ъ' => 'ъ'  case 'Ь' => 'ь'  case 'А' => 'а'
    case 'Б' => 'б'  case 'В' => 'в'  case 'Г' => 'г'  case 'Д' => 'д'
    case 'Е' => 'е'  case 'Ж' => 'ж'  case 'З' => 'з'  case 'И' => 'и'
    case 'К' => 'к'  case 'Л' => 'л'  case 'М' => 'м'  case 'Н' => 'н'
    case 'О' => 'о'  case 'П' => 'п'  case 'Р' => 'р'  case 'С' => 'с'
    case 'Т' => 'т'  case 'У' => 'у'  case 'Ф' => 'ф'  case 'Х' => 'х'
    case _ => c
  }

  function AsciiLower(c: char): char {
    if 'A' <= c <= 'Z' then (c as int + 0x20) as char else c
  }

  /** Latin text with A–Z lowered: no capital is left. */
  function AsciiLowerAll(s: string): (r: string)
    ensures |r| == |s|
    ensures forall i :: 0 <= i < |r| ==> !('A' <= r[i] <= 'Z')
  {
    seq(|s|, i requires 0 <= i < |s| => AsciiLower(s[i]))
  }

  /** A spelling that starts with a capital A–Z, or has no letter to carry
      case: empty (the soft sign) or the apostrophe (the hard sign). */
  predicate CapitalSpelling(t: string) {
    t == [] || t == "'" || 'A' <= t[0] <= 'Z'
  }

  // The case-preservation lemma below, proved for a few capitals at a time.
  lemma CaseLetters0(c: char)
    requires c in "ЧШЮЯЁ"
    ensures CapitalSpelling(Translit(c))
    ensures IsTableLetter(CyrillicLower(c))
    ensures Translit(CyrillicLower(c)) == AsciiLowerAll(Translit(c))
  {
  }

  lemma CaseLetters1(c: char)
    requires c in "ҚҒЎҲЙ"
    ensures CapitalSpelling(Translit(c))
    ensures IsTableLetter(CyrillicLower(c))
    ensures Translit(CyrillicLower(c)) == AsciiLowerAll(Translit(c))
  {
  }

  lemma CaseLetters2(c: char)
    requires c in "ЦЩЭ"
    ensures CapitalSpelling(Translit(c))
    ensures IsTableLetter(CyrillicLower(c))
    ensures Translit(CyrillicLower(c)) == AsciiLowerAll(Translit(c))
  {
  }

  lemma CaseLetters3(c: char)
    requires c in "ЪЬА"
    ensures CapitalSpelling(Translit(c))
    ensures IsTableLetter(CyrillicLower(c))
    ensures Translit(CyrillicLower(c)) == AsciiLowerAll(Translit(c))
  {
  }

  lemma CaseLetters4(c: char)
    requires c in "БВГ"
    ensures CapitalSpelling(Translit(c))
    ensures IsTableLetter(CyrillicLower(c))
    ensures Translit(CyrillicLower(c)) == AsciiLowerAll(Translit(c))
  {
  }

  lemma CaseLetters5(c: char)
    requires c in "ДЕЖ"
    ensures CapitalSpelling(Translit(c))
    ensures IsTableLetter(CyrillicLower(c))
    ensures Translit(CyrillicLower(c)) == AsciiLowerAll(Translit(c))
  {
  }

  lemma CaseLetters6(c: char)
    requires c in "ЗИ"
    ensures CapitalSpelling(Translit(c))
    ensures IsTableLetter(CyrillicLower(c))
    ensures Translit(CyrillicLower(c)) == AsciiLowerAll(Translit(c))
  {
  }

  lemma CaseLetters7(c: char)
    requires c in "КЛ"
    ensures CapitalSpelling(Translit(c))
    ensures IsTableLetter(CyrillicLower(c))
    ensures Translit(CyrillicLower(c)) == AsciiLowerAll(Translit(c))
  {
  }

  lemma CaseLetters8(c: char)
    requires c in "МН"
    ensures CapitalSpelling(Translit(c))
    ensures IsTableLetter(CyrillicLower(c))
    ensures Translit(CyrillicLower(c)) == AsciiLowerAll(Translit(c))
  {
  }

  lemma CaseLetters9(c: char)
    requires c in "ОП"
    ensures CapitalSpelling(Translit(c))
    ensures IsTableLetter(CyrillicLower(c))
    ensures Translit(CyrillicLower(c)) == AsciiLowerAll(Translit(c))
  {
  }

  lemma CaseLetters10(c: char)
    requires c in "РС"
    ensures CapitalSpelling(Translit(c))
    ensures IsTableLetter(CyrillicLower(c))
    ensures Translit(CyrillicLower(c)) == AsciiLowerAll(Translit(c))
  {
  }

  lemma CaseLetters11(c: char)
    requires c in "ТУ"
    ensures CapitalSpelling(Translit(c))
    ensures IsTableLetter(CyrillicLower(c))
    ensures Translit(CyrillicLower(c)) == AsciiLowerAll(Translit(c))
  {
  }

  lemma CaseLetters12(c: char)
    requires c in "ФХ"
    ensures CapitalSpelling(Translit(c))
    ensures IsTableLetter(CyrillicLower(c))
    ensures Translit(CyrillicLower(c)) == AsciiLowerAll(Translit(c))
  {
  }

  /** The first two stages preserve case: a capital table letter is spelt
      with a capital first letter (unless it is a sign), and its small partner
      is a table letter too, spelt like the capital with A–Z lowered. */
  lemma TranslitPreservesCase(c: char)
    requires IsTableLetter(c) && CyrillicLower(c) != c
    ensures CapitalSpelling(Translit(c))
    ensures IsTableLetter(CyrillicLower(c))
    ensures Translit(CyrillicLower(c)) == AsciiLowerAll(Translit(c))
  {
    if c in "ЧШЮЯЁ" {
      CaseLetters0(c);
    } else if c in "ҚҒЎҲЙ" {
      CaseLetters1(c);
    } else if c in "ЦЩЭ" {
      CaseLetters2(c);
    } else if c in "ЪЬА" {
      CaseLetters3(c);
    } else if c in "БВГ" {
      CaseLetters4(c);
    } else if c in "ДЕЖ" {
      CaseLetters5(c);
    } else if c in "ЗИ" {
      CaseLetters6(c);
    } else if c in "КЛ" {
      CaseLetters7(c);
    } else if c in "МН" {
      CaseLetters8(c);
    } else if c in "ОП" {
      CaseLetters9(c);
    } else if c in "РС" {
      CaseLetters10(c);
    } else if c in "ТУ" {
      CaseLetters11(c);
    } else {
      CaseLetters12(c);
    }
  }
}
