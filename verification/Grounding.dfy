/**
 Grounding: the whitespace-collapsed, case-folded containment test that decides whether a quote is
 literal source material, and exactly when it does.
 */
module Grounding {
  import opened Text

  // ---------------------------------------------------------------- splitting and joining

  /** How many characters before the first whitespace. */
  function WordLength(s: string): (k: nat)
    ensures k <= |s| && (forall c | c in s[..k] :: !IsSpace(c)) && (k < |s| ==> IsSpace(s[k]))
  {
    if s == [] || IsSpace(s[0]) then 0 else
    assert s[..1 + WordLength(s[1..])] == [s[0]] + s[1..][..WordLength(s[1..])];
    1 + WordLength(s[1..])
  }

  /** `s.split()` */
  function Split(s: string): (words: seq<string>)
    ensures forall w | w in words :: w != [] && forall c | c in w :: !IsSpace(c)
  {
    if s == [] then []
    else if IsSpace(s[0]) then Split(s[1..])
    else [s[..WordLength(s)]] + Split(s[WordLength(s)..])
  }

  /** `" ".join(words)` */
  function Join(words: seq<string>): string {
    if words == [] then []
    else if |words| == 1 then words[0]
    else words[0] + " " + Join(words[1..])
  }

  function Collapse(s: string): string {
    Join(Split(s))
  }

  /** Case folding maps each character to a string of its own. */
  type Fold = char -> string

  function FoldText(s: string, fold: Fold): string {
    if s == [] then [] else fold(s[0]) + FoldText(s[1..], fold)
  }

  /** `grounding_key` */
  function Key(s: string, fold: Fold): string {
    FoldText(Collapse(s), fold)
  }

  predicate OccursAt(part: string, whole: string, i: nat) {
    i + |part| <= |whole| && whole[i..i + |part|] == part
  }

  /** `part in whole` */
  predicate Contains(part: string, whole: string) {
    exists i | 0 <= i <= |whole| :: OccursAt(part, whole, i)
  }

  /** `is_quote_grounded` */
  predicate Grounded(quote: string, source: string, fold: Fold) {
    Contains(Key(quote, fold), Key(source, fold))
  }

  // ---------------------------------------------------------------- containment

  lemma ContainsParts(a: string, part: string, b: string)
    ensures Contains(part, a + part + b)
  {
    assert OccursAt(part, a + part + b, |a|);
  }

  lemma PartsOfContains(part: string, whole: string) returns (a: string, b: string)
    requires Contains(part, whole)
    ensures whole == a + part + b
  {
    var i :| 0 <= i <= |whole| && OccursAt(part, whole, i);
    a, b := whole[..i], whole[i + |part|..];
  }

  lemma ContainsTransitive(x: string, y: string, z: string)
    requires Contains(x, y) && Contains(y, z)
    ensures Contains(x, z)
  {
    var a, b := PartsOfContains(x, y);
    var c, d := PartsOfContains(y, z);
    assert z == (c + a) + x + (b + d);
    ContainsParts(c + a, x, b + d);
  }

  /** A quote grounded in a span that is grounded in the source is grounded in the source. */
  lemma GroundingTransitive(quote: string, span: string, source: string, fold: Fold)
    requires Grounded(quote, span, fold) && Grounded(span, source, fold)
    ensures Grounded(quote, source, fold)
  {
    ContainsTransitive(Key(quote, fold), Key(span, fold), Key(source, fold));
  }

  lemma {:induction false} FoldConcat(a: string, b: string, fold: Fold)
    ensures FoldText(a + b, fold) == FoldText(a, fold) + FoldText(b, fold)
  {
    if a == [] {
      assert a + b == b;
    } else {
      assert (a + b)[1..] == a[1..] + b;
      FoldConcat(a[1..], b, fold);
    }
  }

  /** Folding works character by character. */
  lemma FoldLaws(c: char, a: string, b: string, fold: Fold)
    ensures FoldText("", fold) == "" && FoldText([c], fold) == fold(c)
    ensures FoldText(a + b, fold) == FoldText(a, fold) + FoldText(b, fold)
  {
    FoldConcat(a, b, fold);
    assert [c][1..] == [];
  }

  lemma FoldContains(part: string, whole: string, fold: Fold)
    requires Contains(part, whole)
    ensures Contains(FoldText(part, fold), FoldText(whole, fold))
  {
    var a, b := PartsOfContains(part, whole);
    FoldConcat(a + part, b, fold);
    FoldConcat(a, part, fold);
    ContainsParts(FoldText(a, fold), FoldText(part, fold), FoldText(b, fold));
  }

  // ---------------------------------------------------------------- collapsing, one character at a time

  predicate StartsSpaced(s: string) {
    s == [] || IsSpace(s[0])
  }

  /** What stands between a character and the collapsed remainder of its text. */
  function Gap(rest: string): string {
    if StartsSpaced(rest) && Collapse(rest) != [] then " " else ""
  }

  lemma SplitWord(c: char, rest: string)
    requires !IsSpace(c) && !StartsSpaced(rest)
    ensures Split(rest) != [] && Split([c] + rest) == [[c] + Split(rest)[0]] + Split(rest)[1..]
  {
    var s := [c] + rest;
    assert s[1..] == rest;
    assert WordLength(s) == 1 + WordLength(rest);
    assert s[..WordLength(s)] == [c] + rest[..WordLength(rest)];
    assert s[WordLength(s)..] == rest[WordLength(rest)..];
  }

  lemma CollapseStart(c: char, rest: string)
    ensures IsSpace(c) ==> Collapse([c] + rest) == Collapse(rest)
    ensures !IsSpace(c) ==> Collapse([c] + rest) == [c] + Gap(rest) + Collapse(rest)
  {
    var s := [c] + rest;
    assert s[1..] == rest;
    if !IsSpace(c) {
      if StartsSpaced(rest) {
        assert WordLength(s) == 1 && s[..1] == [c];
        JoinAfter([c], Split(rest));
      } else {
        SplitWord(c, rest);
        JoinExtended(c, Split(rest));
      }
    }
  }

  lemma JoinAfter(word: string, words: seq<string>)
    requires forall w | w in words :: w != []
    ensures Join([word] + words) == word + (if Join(words) != [] then " " else "") + Join(words)
  {
    if words != [] {
      assert words[0] in words;
      assert ([word] + words)[1..] == words;
    }
  }

  lemma JoinExtended(c: char, words: seq<string>)
    requires words != []
    ensures Join([[c] + words[0]] + words[1..]) == [c] + Join(words)
  {
    var extended := [[c] + words[0]] + words[1..];
    assert extended[1..] == words[1..];
  }

  /** Text before `x` only adds text before its collapsed form. */
  lemma {:induction false} CollapseSuffix(a: string, x: string) returns (before: string)
    ensures Collapse(a + x) == before + Collapse(x)
  {
    if a == [] {
      assert a + x == x;
      before := [];
    } else {
      assert a + x == [a[0]] + (a[1..] + x);
      CollapseStart(a[0], a[1..] + x);
      before := CollapseSuffix(a[1..], x);
      if !IsSpace(a[0]) {
        before := [a[0]] + Gap(a[1..] + x) + before;
      }
    }
  }

  /** Text after `x` only adds text after its collapsed form. */
  lemma {:induction false} CollapsePrefix(x: string, b: string)
    ensures Collapse(x) <= Collapse(x + b)
  {
    if x != [] {
      var c, rest := x[0], x[1..];
      assert x == [c] + rest && x + b == [c] + (rest + b);
      CollapseStart(c, rest);
      CollapseStart(c, rest + b);
      CollapsePrefix(rest, b);
      if !IsSpace(c) {
        assert rest != [] ==> (rest + b)[0] == rest[0];
        if Collapse(rest) == [] {
          NothingToCollapse(rest);
        } else {
          assert rest != [];
          assert Gap(rest) == Gap(rest + b);
        }
      }
    }
  }

  lemma {:induction false} NothingToCollapse(s: string)
    ensures Collapse(s) == [] <==> Blank(s)
  {
    if s != [] {
      assert s == [s[0]] + s[1..];
      CollapseStart(s[0], s[1..]);
      NothingToCollapse(s[1..]);
    }
  }

  /** Completeness: every contiguous piece of the source is grounded in it, whatever the case folding. */
  lemma LiteralIsGrounded(a: string, span: string, b: string, fold: Fold)
    ensures Grounded(span, a + span + b, fold)
  {
    CollapsePrefix(span, b);
    var before := CollapseSuffix(a, span + b);
    assert a + span + b == a + (span + b);
    var after := Collapse(span + b)[|Collapse(span)|..];
    assert Collapse(a + span + b) == before + Collapse(span) + after;
    ContainsParts(before, Collapse(span), after);
    FoldContains(Collapse(span), Collapse(a + span + b), fold);
  }

  /** Collapsing is idempotent, so a comparison key never depends on how often it was taken. */
  lemma {:induction false} CollapseIdempotent(s: string)
    ensures Collapse(Collapse(s)) == Collapse(s)
    ensures !StartsSpaced(s) ==> Collapse(s) != [] && Collapse(s)[0] == s[0]
    ensures Collapse(s) != [] ==> !IsSpace(Collapse(s)[0])
  {
    if s != [] {
      var c, rest := s[0], s[1..];
      assert s == [c] + rest;
      CollapseStart(c, rest);
      CollapseIdempotent(rest);
      if !IsSpace(c) {
        var t := Collapse(rest);
        if Gap(rest) == " " {
          assert [c] + " " + t == [c] + (" " + t) && " " + t == [' '] + t;
          CollapseStart(' ', t);
          CollapseStart(c, " " + t);
        } else {
          assert [c] + "" + t == [c] + t;
          CollapseStart(c, t);
        }
      }
    }
  }

  // ---------------------------------------------------------------- what being grounded says about the source

  /** A final piece of the collapsed text that starts a word is the collapsed form of a final piece of the text. */
  lemma {:induction false} LiftSuffix(s: string, p: string, y: string) returns (a: string, u: string)
    requires Collapse(s) == p + y && y != [] && !IsSpace(y[0])
    ensures s == a + u && Collapse(u) == y
  {
    if p == [] {
      a, u := [], s;
    } else {
      var c, rest := s[0], s[1..];
      assert s == [c] + rest;
      CollapseStart(c, rest);
      if IsSpace(c) {
        a, u := LiftSuffix(rest, p, y);
      } else {
        var skip := 1 + |Gap(rest)|;
        assert Collapse(s)[skip..] == Collapse(rest);
        assert Collapse(s)[|p|] == y[0];
        assert |p| >= skip;
        assert Collapse(rest) == p[skip..] + y;
        a, u := LiftSuffix(rest, p[skip..], y);
      }
      a := [c] + a;
    }
  }

  /** Cutting the remainder of a text after a nonempty start keeps the gap before it. */
  lemma CutKeepsGap(c: char, w: string, b: string)
    requires !IsSpace(c) && Collapse(w) != []
    ensures Collapse([c] + w) == [c] + Gap(w + b) + Collapse(w)
  {
    CollapseStart(c, w);
    CollapsePrefix(w, b);
    var none: string := [];
    assert Collapse(none) == [] && w != none;
    assert (w + b)[0] == w[0];
  }

  lemma PastTheGap(u: string, c: char, rest: string, x: string, t: string)
    requires u == [c] + rest && !IsSpace(c) && Collapse(u) == x + t && |x| > 1 && !IsSpace(x[|x| - 1])
    ensures |x| > 1 + |Gap(rest)| && x == [c] + Gap(rest) + x[1 + |Gap(rest)|..]
    ensures Collapse(rest) == x[1 + |Gap(rest)|..] + t
  {
    CollapseStart(c, rest);
    var skip := 1 + |Gap(rest)|;
    assert x[|x| - 1] == Collapse(u)[|x| - 1];
    assert Gap(rest) == " " ==> Collapse(u)[1] == ' ' && IsSpace(' ');
    assert |x| > skip;
    assert Collapse(u)[skip..] == Collapse(rest);
    assert (x + t)[skip..] == x[skip..] + t;
    assert x[..skip] == Collapse(u)[..skip] == [c] + Gap(rest);
  }

  /** An initial piece of the collapsed text that ends a word is the collapsed form of an initial piece. */
  lemma {:induction false} LiftPrefix(u: string, x: string, t: string) returns (w: string, b: string)
    requires Collapse(u) == x + t && x != [] && !IsSpace(x[|x| - 1])
    ensures u == w + b && Collapse(w) == x
  {
    var c, rest := u[0], u[1..];
    assert u == [c] + rest;
    CollapseStart(c, rest);
    if IsSpace(c) {
      w, b := LiftPrefix(rest, x, t);
      CollapseStart(c, w);
      w := [c] + w;
    } else if |x| == 1 {
      w, b := [c], rest;
      CollapseStart(c, []);
      assert [c] + [] == [c] && x[0] == Collapse(u)[0] == c;
    } else {
      PastTheGap(u, c, rest, x, t);
      w, b := LiftPrefix(rest, x[1 + |Gap(rest)|..], t);
      CutKeepsGap(c, w, b);
      w := [c] + w;
    }
  }

  /** A span of the source whose key is the quote's key. */
  ghost predicate Literal(quote: string, source: string, fold: Fold) {
    exists w: string :: Contains(w, source) && Key(w, fold) == Key(quote, fold)
  }

  lemma LiteralThenGrounded(quote: string, source: string, fold: Fold)
    requires Literal(quote, source, fold)
    ensures Grounded(quote, source, fold)
  {
    var w: string :| Contains(w, source) && Key(w, fold) == Key(quote, fold);
    var a, b := PartsOfContains(w, source);
    LiteralIsGrounded(a, w, b, fold);
  }

  /** Folding keeps whitespace and its absence, never erases a character, and folds what it wrote to itself. */
  ghost predicate FoldsLikeUnicode(fold: Fold) {
    && fold(' ') == " "
    && (forall c: char :: fold(c) != [])
    && (forall c: char, d: char | d in fold(c) :: (IsSpace(d) <==> IsSpace(c)) && fold(d) == [d])
  }

  /** No visible character of `s` folds to more than one. */
  predicate FoldsSingly(s: string, fold: Fold) {
    forall c | c in s && !IsSpace(c) :: |fold(c)| == 1
  }

  lemma {:induction false} FoldLength(s: string, fold: Fold)
    requires forall c | c in s :: |fold(c)| == 1
    ensures |FoldText(s, fold)| == |s| && forall k | 0 <= k < |s| :: [FoldText(s, fold)[k]] == fold(s[k])
  {
    if s != [] {
      assert s[0] in s && forall c | c in s[1..] :: c in s;
      FoldLength(s[1..], fold);
      forall k | 0 <= k < |s| ensures [FoldText(s, fold)[k]] == fold(s[k]) {
        if k > 0 {
          assert s[k] == s[1..][k - 1];
        }
      }
    }
  }

  /** The piece of the text that a piece of its folding came from. */
  lemma UnfoldPiece(p: string, x: string, t: string, s: string, fold: Fold)
    returns (a: string, w: string, b: string)
    requires (forall c | c in s :: |fold(c)| == 1) && FoldText(s, fold) == p + x + t
    ensures s == a + w + b && FoldText(w, fold) == x
  {
    FoldLength(s, fold);
    a, w, b := s[..|p|], s[|p|..|p| + |x|], s[|p| + |x|..];
    assert s == a + w + b;
    FoldConcat(a + w, b, fold);
    FoldConcat(a, w, fold);
    FoldLength(a, fold);
    FoldLength(w, fold);
    assert (p + x + t)[|p|..|p| + |x|] == x;
    assert (FoldText(a, fold) + FoldText(w, fold) + FoldText(b, fold))[|p|..|p| + |x|] == FoldText(w, fold);
  }

  /** Collapsing adds no character but the space, and keeps no other whitespace. */
  lemma {:induction false} CollapseKeeps(s: string)
    ensures forall c | c in Collapse(s) :: c == ' ' || (c in s && !IsSpace(c))
  {
    if s != [] {
      var c, rest := s[0], s[1..];
      assert s == [c] + rest;
      CollapseStart(c, rest);
      CollapseKeeps(rest);
      assert forall d :: d in s <==> d == c || d in rest;
    }
  }

  lemma {:induction false} CollapseEndsInWords(s: string)
    ensures Collapse(s) != [] ==> !IsSpace(Collapse(s)[|Collapse(s)| - 1])
  {
    if s != [] {
      assert s == [s[0]] + s[1..];
      CollapseStart(s[0], s[1..]);
      CollapseEndsInWords(s[1..]);
    }
  }

  lemma FoldStart(x: string, fold: Fold)
    requires FoldsLikeUnicode(fold) && x != []
    ensures FoldText(x, fold) != [] && (IsSpace(FoldText(x, fold)[0]) <==> IsSpace(x[0]))
  {
    assert fold(x[0]) != [] && FoldText(x, fold)[0] in fold(x[0]);
  }

  lemma FoldEnd(x: string, fold: Fold)
    requires FoldsLikeUnicode(fold) && x != []
    ensures var y := FoldText(x, fold); y != [] && (IsSpace(y[|y| - 1]) <==> IsSpace(x[|x| - 1]))
  {
    var front, last, none: string := x[..|x| - 1], x[|x| - 1], [];
    assert x == front + [last] && [last][1..] == none;
    FoldConcat(front, [last], fold);
    assert FoldText(x, fold) == FoldText(front, fold) + fold(last);
    assert fold(last) != [] && fold(last)[|fold(last)| - 1] in fold(last);
  }

  lemma EndsAreWords(w: string, x: string, fold: Fold)
    requires FoldsLikeUnicode(fold) && FoldText(w, fold) == FoldText(x, fold)
    requires x != [] && !IsSpace(x[0]) && !IsSpace(x[|x| - 1])
    ensures w != [] && !IsSpace(w[0]) && !IsSpace(w[|w| - 1])
  {
    FoldStart(x, fold);
    FoldEnd(x, fold);
    FoldStart(w, fold);
    FoldEnd(w, fold);
  }

  lemma EmptyIsLiteral(quote: string, source: string, fold: Fold)
    requires Collapse(quote) == []
    ensures Literal(quote, source, fold)
  {
    var none: string := [];
    assert Collapse(none) == [];
    assert OccursAt(none, source, 0);
    assert Contains(none, source) && Key(none, fold) == Key(quote, fold);
  }

  /**
   In a source without expanding characters, a grounded quote is a span of the source up to the key. The
   quote is any text.
   */
  lemma GroundedThenLiteral(quote: string, source: string, fold: Fold)
    requires FoldsLikeUnicode(fold) && FoldsSingly(source, fold) && Grounded(quote, source, fold)
    ensures Literal(quote, source, fold)
  {
    var x := Collapse(quote);
    if x == [] {
      EmptyIsLiteral(quote, source, fold);
    } else {
      var p, t := PartsOfContains(Key(quote, fold), Key(source, fold));
      CollapseKeeps(source);
      var a, w, b := UnfoldPiece(p, FoldText(x, fold), t, Collapse(source), fold);
      CollapseIdempotent(quote);
      CollapseEndsInWords(quote);
      EndsAreWords(w, x, fold);
      var span := LiftPiece(source, a, w, b);
      assert Key(span, fold) == Key(quote, fold);
    }
  }

  /** A piece of the collapsed text that starts and ends in a word is the collapsed form of a span. */
  lemma LiftPiece(s: string, p: string, x: string, t: string) returns (span: string)
    requires Collapse(s) == p + x + t && x != [] && !IsSpace(x[0]) && !IsSpace(x[|x| - 1])
    ensures Contains(span, s) && Collapse(span) == x
  {
    assert Collapse(s) == p + (x + t);
    var a, u := LiftSuffix(s, p, x + t);
    var b: string;
    span, b := LiftPrefix(u, x, t);
    assert s == a + span + b;
    ContainsParts(a, span, b);
  }

  lemma {:induction false} FoldAgain(s: string, fold: Fold)
    requires forall d | d in s :: fold(d) == [d]
    ensures FoldText(s, fold) == s
  {
    if s != [] {
      assert forall d | d in s[1..] :: d in s;
      FoldAgain(s[1..], fold);
      assert s == [s[0]] + s[1..];
    }
  }

  lemma CollapseChar(c: char)
    requires !IsSpace(c)
    ensures Collapse([c]) == [c] && Collapse([]) == []
  {
    CollapseStart(c, []);
    assert [c] + [] == [c];
  }

  lemma PiecesOfOne(w: string, c: char)
    requires Contains(w, [c])
    ensures w == [] || w == [c]
  {
    var a, b := PartsOfContains(w, [c]);
    if |w| == 1 {
      assert w[0] == (a + w + b)[|a|];
    }
  }

  lemma KeyOfChar(c: char, fold: Fold)
    requires !IsSpace(c)
    ensures Key([c], fold) == fold(c) && Key([], fold) == []
  {
    CollapseChar(c);
    assert FoldText([c], fold) == fold(c) + FoldText([], fold);
  }

  /** A character that folds to several makes a quote grounded that is no span of the source. */
  lemma ExpansionIsNotLiteral(c: char, fold: Fold)
    requires FoldsLikeUnicode(fold) && !IsSpace(c) && |fold(c)| > 1
    ensures Grounded(fold(c)[..1], [c], fold) && !Literal(fold(c)[..1], [c], fold)
  {
    var d := fold(c)[0];
    assert d in fold(c) && fold(c)[..1] == [d];
    KeyOfChar(c, fold);
    KeyOfChar(d, fold);
    assert OccursAt([d], fold(c), 0);
    forall w: string | Contains(w, [c]) ensures Key(w, fold) != [d] {
      PiecesOfOne(w, c);
    }
  }

  /** For one call: over a source without expanding characters, grounded and literal are the same. */
  lemma GroundedIsLiteral(quote: string, source: string, fold: Fold)
    requires FoldsLikeUnicode(fold) && FoldsSingly(source, fold)
    ensures Grounded(quote, source, fold) <==> Literal(quote, source, fold)
  {
    if Grounded(quote, source, fold) {
      GroundedThenLiteral(quote, source, fold);
    }
    if Literal(quote, source, fold) {
      LiteralThenGrounded(quote, source, fold);
    }
  }

  ghost predicate WrittenIn(s: string, alphabet: char -> bool) {
    forall c | c in s :: alphabet(c)
  }

  /**
   No larger class of sources will do: over any alphabet, grounded means literal for every quote and every
   source exactly when no visible character of the alphabet folds to more than one.
   */
  lemma GroundedIsLiteralExactly(alphabet: char -> bool, fold: Fold)
    requires FoldsLikeUnicode(fold)
    ensures (forall quote: string, source: string | WrittenIn(source, alphabet) ::
               Grounded(quote, source, fold) <==> Literal(quote, source, fold))
            <==> forall c | alphabet(c) && !IsSpace(c) :: |fold(c)| == 1
  {
    if forall c | alphabet(c) && !IsSpace(c) :: |fold(c)| == 1 {
      forall quote: string, source: string | WrittenIn(source, alphabet)
        ensures Grounded(quote, source, fold) <==> Literal(quote, source, fold)
      {
        GroundedIsLiteral(quote, source, fold);
      }
    } else {
      var c :| alphabet(c) && !IsSpace(c) && |fold(c)| != 1;
      assert fold(c) != [];
      ExpansionIsNotLiteral(c, fold);
      assert WrittenIn([c], alphabet);
    }
  }
}
