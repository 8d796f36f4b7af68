// Search-text normalisation shared by the listings query of the server
// (server/auctionRoutes.js) and the listings page (js/listings.js).
module Search {
  import opened Text
  import opened Lists

  /** `.filter(term => term.length > 2)` */
  function Long(w: string): bool { |w| > 2 }

  /** A character the normalised text can contain: no upper-case letter, no `-`, no `_`. */
  predicate Normalised(c: char) {
    !('A' <= c <= 'Z') && c != '-' && c != '_'
  }

  /**
   * The search terms: `toLowerCase()`, `-` and `_` replaced by spaces, split
   * on whitespace, words of at most two characters dropped. (The `trim` and
   * the empty-word filter after the split change nothing on these words.)
   */
  function SearchTerms(s: string): (r: seq<string>)
    ensures forall i :: 0 <= i < |r| ==> |r[i]| > 2
    ensures forall i :: 0 <= i < |r| ==> forall j :: 0 <= j < |r[i]| ==> !IsSpace(r[i][j]) && Normalised(r[i][j])
  {
    var n := DashesToSpaces(Lower(s));
    assert forall c :: c in n ==> Normalised(c);
    Filter(Words(n), Long)
  }

  /** The later of the two `preprocessSearch` declarations, the one in effect. */
  function PreprocessSearch(s: string): (r: string)
    ensures r == [] || (!IsSpace(r[0]) && !IsSpace(r[|r| - 1]))
    ensures forall c :: c in r ==> Normalised(c)
  {
    var n := DashesToSpaces(Lower(s));
    assert forall c :: c in n ==> Normalised(c);
    Trim(n)
  }

  /** Normalising already normalised text changes nothing. */
  lemma PreprocessIdempotent(s: string)
    ensures PreprocessSearch(PreprocessSearch(s)) == PreprocessSearch(s)
  {
    var p := PreprocessSearch(s);
    NormalisedFixed(p);
    assert TrimStart(p) == p;
    assert TrimEnd(p) == p;
  }

  lemma NormalisedFixed(p: string)
    requires forall c :: c in p ==> Normalised(c)
    ensures DashesToSpaces(Lower(p)) == p
  {
    var l := Lower(p);
    assert forall i :: 0 <= i < |p| ==> l[i] == p[i] by {
      forall i | 0 <= i < |p| ensures l[i] == p[i] {
        assert p[i] in p;
      }
    }
    assert l == p;
    var d := DashesToSpaces(p);
    forall i | 0 <= i < |p| ensures d[i] == p[i] {
      assert p[i] in p;
    }
  }

  /** The search terms of two texts joined by a space are the terms of the first followed by those of the second. */
  lemma SearchTermsAppend(a: string, b: string)
    ensures SearchTerms(a + " " + b) == SearchTerms(a) + SearchTerms(b)
  {
    var na, nb := DashesToSpaces(Lower(a)), DashesToSpaces(Lower(b));
    LowerAppend(a + " ", b);
    LowerAppend(a, " ");
    DashesAppend(Lower(a) + Lower(" "), Lower(b));
    DashesAppend(Lower(a), Lower(" "));
    assert DashesToSpaces(Lower(" ")) == " ";
    assert DashesToSpaces(Lower(a + " " + b)) == na + [' '] + nb;
    WordsAround(na, ' ', nb);
    FilterAppend(Words(na), Words(nb), Long);
  }

  /** No character of the word is whitespace, a dash or an underscore. */
  predicate PlainWord(w: string) {
    forall i :: 0 <= i < |w| ==> !IsSpace(w[i]) && w[i] != '-' && w[i] != '_'
  }

  lemma PlainWordNormal(w: string)
    requires PlainWord(w)
    ensures DashesToSpaces(Lower(w)) == Lower(w)
    ensures forall i :: 0 <= i < |w| ==> !IsSpace(Lower(w)[i])
  {
    var l := Lower(w);
    var n := DashesToSpaces(l);
    forall i | 0 <= i < |w| ensures n[i] == l[i] {
      assert l[i] == LowerChar(w[i]);
    }
  }

  lemma LongWord(n: string)
    requires n != [] && forall i :: 0 <= i < |n| ==> !IsSpace(n[i])
    ensures Filter(Words(n), Long) == if |n| > 2 then [n] else []
  {
    WordsOfWord(n);
    assert [n][1..] == [];
  }

  /**
   * A text with no whitespace, dash or underscore is a single search term,
   * lower-cased, when it is longer than two characters, and none otherwise.
   */
  lemma SearchTermsOfWord(w: string)
    requires PlainWord(w)
    ensures SearchTerms(w) == if |w| > 2 then [Lower(w)] else []
  {
    PlainWordNormal(w);
    if w == [] {
      assert Words([]) == [];
    } else {
      LongWord(Lower(w));
    }
  }

  /**
   * The search terms of words joined by spaces are those words, lower-cased,
   * that are longer than two characters, in their order.
   */
  lemma {:induction false} SearchTermsOfWords(ws: seq<string>)
    requires forall k :: 0 <= k < |ws| ==> PlainWord(ws[k])
    ensures SearchTerms(Join(ws, " ")) == Filter(Map(ws, Lower), Long)
  {
    if ws == [] {
      assert Words([]) == [];
    } else {
      var head, tail := [Lower(ws[0])], Map(ws[1..], Lower);
      FirstWordTerms(ws[0]);
      assert Map(ws, Lower) == head + tail;
      FilterAppend(head, tail, Long);
      if |ws| > 1 {
        SearchTermsOfWords(ws[1..]);
        JoinTerms(ws);
      } else {
        assert Join(ws, " ") == ws[0];
        assert tail == [];
      }
    }
  }

  lemma FirstWordTerms(w: string)
    requires PlainWord(w)
    ensures Filter([Lower(w)], Long) == SearchTerms(w)
  {
    SearchTermsOfWord(w);
    FilterSingle(Lower(w), Long);
  }

  lemma JoinTerms(ws: seq<string>)
    requires |ws| > 1
    ensures SearchTerms(Join(ws, " ")) == SearchTerms(ws[0]) + SearchTerms(Join(ws[1..], " "))
  {
    assert Join(ws, " ") == ws[0] + " " + Join(ws[1..], " ");
    SearchTermsAppend(ws[0], Join(ws[1..], " "));
  }
}
