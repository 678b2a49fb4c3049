/** The string operations the normalisation pipeline is built from: JavaScript's
    `String.prototype.replace` with a global regular expression that matches a
    single code unit or a two-unit pattern, `split('').map(f).join('')`, and a
    chain of such replacements applied one after the other.

    A `char` of this model stands for one UTF-16 code unit of the source; the
    only place where that differs (characters above U+FFFF) is handled where it
    matters, in the final mask of the ASCII projection. */
module Text {

  /** `s.split('').map(f).join('')`: every character replaced by the string `f`
      gives for it, the pieces joined in order. */
  function FlatMap(s: string, f: char -> string): string
    decreases |s|
  {
    if s == [] then [] else f(s[0]) + FlatMap(s[1..], f)
  }

  lemma {:induction false} FlatMapAppend(a: string, b: string, f: char -> string)
    ensures FlatMap(a + b, f) == FlatMap(a, f) + FlatMap(b, f)
    decreases |a|
  {
    if a == [] {
      assert a + b == b;
    } else {
      assert (a + b)[1..] == a[1..] + b;
      FlatMapAppend(a[1..], b, f);
    }
  }

  /** A character survives a per-character pass only if its own image is itself. */
  lemma {:induction false} FlatMapIdentity(s: string, f: char -> string)
    requires forall i :: 0 <= i < |s| ==> f(s[i]) == [s[i]]
    ensures FlatMap(s, f) == s
    decreases |s|
  {
    if s != [] {
      FlatMapIdentity(s[1..], f);
    }
  }

  /** A prefix whose characters are all their own images is copied. */
  lemma FlatMapKeepsPrefix(p: string, rest: string, f: char -> string)
    requires forall i :: 0 <= i < |p| ==> f(p[i]) == [p[i]]
    ensures FlatMap(p + rest, f) == p + FlatMap(rest, f)
  {
    FlatMapAppend(p, rest, f);
    FlatMapIdentity(p, f);
  }

  /** Every character of the output comes from the image of some input character. */
  lemma {:induction false} FlatMapOrigin(s: string, f: char -> string, ch: char)
    requires ch in FlatMap(s, f)
    ensures exists i :: 0 <= i < |s| && ch in f(s[i])
    decreases |s|
  {
    if ch in f(s[0]) {
    } else {
      FlatMapOrigin(s[1..], f, ch);
      var i :| 0 <= i < |s[1..]| && ch in f(s[1..][i]);
      assert ch in f(s[i + 1]);
    }
  }

  /** Two per-character passes are one per-character pass. */
  lemma {:induction false} FlatMapCompose(s: string, f: char -> string, g: char -> string, h: char -> string)
    requires forall c :: FlatMap(f(c), g) == h(c)
    ensures FlatMap(FlatMap(s, f), g) == FlatMap(s, h)
    decreases |s|
  {
    if s != [] {
      FlatMapAppend(f(s[0]), FlatMap(s[1..], f), g);
      FlatMapCompose(s[1..], f, g, h);
    }
  }

  /** When every image has one character, the length is kept and position `i`
      of the output is the image of position `i` of the input. */
  lemma {:induction false} FlatMapPointwise(s: string, f: char -> string, g: char -> char)
    requires forall c :: f(c) == [g(c)]
    ensures |FlatMap(s, f)| == |s|
    ensures forall i :: 0 <= i < |s| ==> FlatMap(s, f)[i] == g(s[i])
    decreases |s|
  {
    if s != [] {
      FlatMapPointwise(s[1..], f, g);
      var r := FlatMap(s, f);
      assert r == [g(s[0])] + FlatMap(s[1..], f);
      forall i | 0 <= i < |s| ensures r[i] == g(s[i]) {
        if i > 0 {
          assert r[i] == FlatMap(s[1..], f)[i - 1];
        }
      }
    }
  }

  /** `s.replace(/c/g, to)` for a regular expression that is one literal code unit
      and a replacement `to` without `$` (no `$&`, `$1` or `$$` to expand). */
  function ReplaceAll(s: string, from: char, to: string): (r: string)
    ensures from !in to ==> from !in r
    ensures from !in s ==> r == s
  {
    var f := c => if c == from then to else [c];
    var r := FlatMap(s, f);
    assert from !in to ==> from !in r by {
      if from in r {
        FlatMapOrigin(s, f, from);
      }
    }
    assert from !in s ==> r == s by {
      if from !in s {
        FlatMapIdentity(s, f);
      }
    }
    r
  }

  /** `s.replace(/[...]/g, to)` for a character class of single code units and
      a replacement `to` without `$`. */
  function ReplaceAny(s: string, from: set<char>, to: string): (r: string)
    ensures forall ch :: ch in r ==> (ch in s && ch !in from) || ch in to
  {
    var f := c => if c in from then to else [c];
    var r := FlatMap(s, f);
    assert forall ch :: ch in r ==> (ch in s && ch !in from) || ch in to by {
      forall ch | ch in r ensures (ch in s && ch !in from) || ch in to {
        FlatMapOrigin(s, f, ch);
      }
    }
    r
  }

  /** `s.replace(/h[t]/gi, to)` for a replacement `to` without `$` and a
      two-unit pattern: a character of `heads` (the letter in both cases,
      since the pattern ignores case) followed by a character of `tails`.
      The scan goes left to right; after a match it resumes behind the
      matched pair, otherwise one character further on. */
  function ReplacePair(s: string, heads: set<char>, tails: set<char>, to: string): (r: string)
    ensures forall ch :: ch in r ==> ch in s || ch in to
    decreases |s|
  {
    if |s| >= 2 && s[0] in heads && s[1] in tails then
      to + ReplacePair(s[2..], heads, tails, to)
    else if s == [] then []
    else [s[0]] + ReplacePair(s[1..], heads, tails, to)
  }

  /** With no character of `tails` in the text there is nothing to match. */
  lemma {:induction false} ReplacePairNoMatch(s: string, heads: set<char>, tails: set<char>, to: string)
    requires forall i :: 0 <= i < |s| ==> s[i] !in tails
    ensures ReplacePair(s, heads, tails, to) == s
    decreases |s|
  {
    if s != [] {
      ReplacePairNoMatch(s[1..], heads, tails, to);
    }
  }

  /** A leading character that cannot start a match is copied and the scan goes on. */
  lemma ReplacePairSkip(x: char, s: string, heads: set<char>, tails: set<char>, to: string)
    requires x !in heads
    ensures ReplacePair([x] + s, heads, tails, to) == [x] + ReplacePair(s, heads, tails, to)
  {
    assert ([x] + s)[1..] == s;
  }

  /** A leading character that does not start a match (it is no head, or the
      character after it is no tail) is copied, and the scan goes on behind it. */
  lemma ReplacePairCopy(s: string, heads: set<char>, tails: set<char>, to: string)
    requires |s| >= 1 && !(|s| >= 2 && s[0] in heads && s[1] in tails)
    ensures ReplacePair(s, heads, tails, to) == [s[0]] + ReplacePair(s[1..], heads, tails, to)
  {
  }

  /** One `.replace(/from/g, to)` link of a chain. */
  datatype Rule = Rule(from: char, to: string)

  /** `s.replace(...).replace(...)...` from the `k`-th link of the chain on:
      the rules applied one after the other, each to the whole result of the
      previous one. */
  function ReplaceEach(s: string, rules: seq<Rule>, k: nat): string
    decreases |rules| - k
  {
    if k >= |rules| then s
    else ReplaceEach(ReplaceAll(s, rules[k].from, rules[k].to), rules, k + 1)
  }

  /** What the chain from its `k`-th link on does to one character taken
      alone: the first of those rules for it, or the character itself when
      none names it. */
  function Lookup(rules: seq<Rule>, k: nat, c: char): string
    decreases |rules| - k
  {
    if k >= |rules| then [c]
    else if rules[k].from == c then rules[k].to
    else Lookup(rules, k + 1, c)
  }

  predicate Printable(ch: char) {
    ' ' <= ch <= '~'
  }

  predicate AllPrintable(s: string) {
    forall i :: 0 <= i < |s| ==> Printable(s[i])
  }

  /** Text made of printable ASCII only. */
  type Latin = s: string | AllPrintable(s)

  /** A chain whose rules replace non-ASCII characters by printable ASCII text,
      so that no replacement can produce something a later rule matches. */
  predicate Separated(rules: seq<Rule>) {
    forall i :: 0 <= i < |rules| ==> rules[i].from > '~' && AllPrintable(rules[i].to)
  }

  /** An ASCII character is named by no rule of a separated chain. */
  lemma {:induction false} LookupPrintable(rules: seq<Rule>, k: nat, c: char)
    requires Separated(rules) && c <= '~'
    ensures Lookup(rules, k, c) == [c]
    decreases |rules| - k
  {
    if k < |rules| {
      LookupPrintable(rules, k + 1, c);
    }
  }

  /** Applying a separated chain of global replacements one after the other is
      the same as one per-character pass with the chain's lookup. */
  lemma {:induction false} ReplaceEachIsPerChar(s: string, rules: seq<Rule>, k: nat)
    requires Separated(rules)
    ensures ReplaceEach(s, rules, k) == FlatMap(s, c => Lookup(rules, k, c))
    decreases |rules| - k
  {
    if k >= |rules| {
      FlatMapIdentity(s, c => Lookup(rules, k, c));
    } else {
      var r := rules[k];
      var f := c => if c == r.from then r.to else [c];
      var g := c => Lookup(rules, k + 1, c);
      var h := c => Lookup(rules, k, c);
      ReplaceEachIsPerChar(FlatMap(s, f), rules, k + 1);
      forall c ensures FlatMap(f(c), g) == h(c) {
        if c == r.from {
          forall i | 0 <= i < |r.to| ensures g(r.to[i]) == [r.to[i]] {
            LookupPrintable(rules, k + 1, r.to[i]);
          }
          FlatMapIdentity(r.to, g);
        } else {
          assert FlatMap([c], g) == g(c) + FlatMap([], g);
        }
      }
      FlatMapCompose(s, f, g, h);
    }
  }
}
